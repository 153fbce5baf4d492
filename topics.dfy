/**
 * Bus topics of the bridge: how a device id is written into a topic
 * (JavaScript's string conversion of a non-negative integer), the two
 * topic shapes the bridge publishes on, and the regular expression
 * ^/devices/zwave-(\d+)/ that the inbound message handler applies.
 */
module Topics {
  import opened Wrappers

  /** Every device topic starts with this prefix, followed by the device id. */
  const DevicePrefix: string := "/devices/zwave-"

  /** Appended to a control topic for its metadata "type" attribute. */
  const MetaTypeSuffix: string := "/meta/type"

  /** `\d` of a JavaScript regular expression without the `u` flag: ASCII digits only. */
  predicate IsDigit(c: char) {
    '0' <= c <= '9'
  }

  predicate AllDigits(s: string) {
    forall i :: 0 <= i < |s| ==> IsDigit(s[i])
  }

  function DigitChar(d: nat): (c: char)
    requires d < 10
    ensures IsDigit(c) && c as int - '0' as int == d
  {
    ('0' as int + d) as char
  }

  function DigitValue(c: char): (d: nat)
    requires IsDigit(c)
    ensures d < 10 && DigitChar(d) == c
  {
    c as int - '0' as int
  }

  /**
   * The string form JavaScript gives a non-negative integer id when it is
   * concatenated into a topic or used as an array key: decimal digits,
   * with a leading zero only for zero itself.
   */
  function DecimalString(n: nat): (r: string)
    ensures |r| > 0 && AllDigits(r)
    ensures r[0] == '0' <==> n == 0
    ensures n == 0 ==> r == "0"
    decreases n
  {
    if n < 10 then [DigitChar(n)] else DecimalString(n / 10) + [DigitChar(n % 10)]
  }

  /** The number a string of decimal digits denotes. */
  function DecimalValue(s: string): nat
    requires AllDigits(s)
    decreases |s|
  {
    if s == [] then 0 else DecimalValue(s[..|s| - 1]) * 10 + DigitValue(s[|s| - 1])
  }

  /** Reading back the decimal form of an id gives the id. */
  lemma {:induction false} DecimalRoundTrip(n: nat)
    ensures DecimalValue(DecimalString(n)) == n
    decreases n
  {
    if n >= 10 {
      var s := DecimalString(n);
      assert s[..|s| - 1] == DecimalString(n / 10);
      DecimalRoundTrip(n / 10);
    }
  }

  /** A digit string without a superfluous leading zero. */
  predicate IsCanonicalDecimal(s: string) {
    |s| > 0 && AllDigits(s) && (s[0] == '0' ==> |s| == 1)
  }

  lemma {:induction false} LeadingNonZeroIsPositive(s: string)
    requires |s| > 0 && AllDigits(s) && s[0] != '0'
    ensures DecimalValue(s) > 0
    decreases |s|
  {
    if |s| > 1 {
      LeadingNonZeroIsPositive(s[..|s| - 1]);
    }
  }

  /**
   * Every canonical digit string is the decimal form of exactly the number
   * it denotes, so the decimal form of ids is a bijection onto them.
   */
  lemma {:induction false} CanonicalRoundTrip(s: string)
    requires IsCanonicalDecimal(s)
    ensures DecimalString(DecimalValue(s)) == s
    decreases |s|
  {
    if |s| > 1 {
      var p := s[..|s| - 1];
      assert p[0] == s[0];
      LeadingNonZeroIsPositive(p);
      CanonicalRoundTrip(p);
      var n := DecimalValue(s);
      assert n / 10 == DecimalValue(p) && n % 10 == DigitValue(s[|s| - 1]);
      assert s == p + [s[|s| - 1]];
    }
  }

  /** Two ids share a decimal form only when they are equal. */
  lemma DecimalStringInjective(m: nat, n: nat)
    requires DecimalString(m) == DecimalString(n)
    ensures m == n
  {
    DecimalRoundTrip(m);
    DecimalRoundTrip(n);
  }

  /**
   * The topic of control `control` of device `id`: it starts with the
   * device's head `/devices/zwave-<id>/`, which the inbound expression
   * matches, and ends with the control name.
   */
  function ControlTopic(id: nat, control: string): (t: string)
    ensures MatchesDevicePattern(t, DecimalString(id))
    ensures |t| >= |control| && t[|t| - |control|..] == control
  {
    var head := DevicePrefix + DecimalString(id) + "/";
    var t := head + "controls/" + control;
    assert t[..|head|] == head;
    t
  }

  /**
   * The topic of the metadata "type" of control `control` of device `id`:
   * the control's topic with the suffix the metadata test looks for.
   */
  function MetaTypeTopic(id: nat, control: string): (t: string)
    ensures MatchesDevicePattern(t, DecimalString(id))
    ensures IsMetaTopic(t) && t[..|t| - |MetaTypeSuffix|] == ControlTopic(id, control)
  {
    var c := ControlTopic(id, control);
    var t := c + MetaTypeSuffix;
    assert t[..|DevicePrefix| + |DecimalString(id)| + 1] == c[..|DevicePrefix| + |DecimalString(id)| + 1];
    t
  }

  predicate IsMetaTopic(topic: string) {
    |topic| >= |MetaTypeSuffix| && topic[|topic| - |MetaTypeSuffix|..] == MetaTypeSuffix
  }

  /** Length of the run of digits that `s` starts with. */
  function DigitRun(s: string): (n: nat)
    ensures n <= |s| && AllDigits(s[..n])
    ensures n < |s| ==> !IsDigit(s[n])
    decreases |s|
  {
    if s != [] && IsDigit(s[0]) then 1 + DigitRun(s[1..]) else 0
  }

  /**
   * The match of ^/devices/zwave-(\d+)/ against `topic`: the captured
   * digits, or None when the expression does not match. The greedy digit
   * run must be followed by '/'; backtracking to a shorter run would leave
   * a digit in that position, so only the whole run can match.
   */
  function ParseDeviceTopic(topic: string): (r: Option<string>)
    ensures r.Some? ==> |r.value| > 0 && AllDigits(r.value)
  {
    if |topic| >= |DevicePrefix| && topic[..|DevicePrefix|] == DevicePrefix then
      var rest := topic[|DevicePrefix|..];
      var n := DigitRun(rest);
      if 0 < n < |rest| && rest[n] == '/' then Some(rest[..n]) else None
    else
      None
  }

  /** The regular expression ^/devices/zwave-(\d+)/ matches `topic` and captures `digits`. */
  ghost predicate MatchesDevicePattern(topic: string, digits: string) {
    && |digits| > 0
    && AllDigits(digits)
    && |topic| > |DevicePrefix| + |digits|
    && topic[..|DevicePrefix| + |digits| + 1] == DevicePrefix + digits + "/"
  }

  /** ParseDeviceTopic captures exactly what the regular expression captures, and nothing when it fails. */
  lemma ParseDeviceTopicMatches(topic: string, digits: string)
    ensures ParseDeviceTopic(topic) == Some(digits) <==> MatchesDevicePattern(topic, digits)
  {
    var k := |DevicePrefix|;
    if MatchesDevicePattern(topic, digits) {
      assert topic[..k] == (DevicePrefix + digits + "/")[..k];
      var rest := topic[k..];
      assert rest[..|digits|] == digits by {
        assert forall i :: 0 <= i < |digits| ==> rest[i] == (DevicePrefix + digits + "/")[k + i];
      }
      assert rest[|digits|] == (DevicePrefix + digits + "/")[k + |digits|];
      assert forall i :: 0 <= i < |digits| ==> IsDigit(rest[i]);
      assert !IsDigit(rest[|digits|]);
      assert DigitRun(rest) == |digits|;
    }
    if ParseDeviceTopic(topic) == Some(digits) {
      var rest := topic[k..];
      assert topic[..k + |digits| + 1] == topic[..k] + rest[..|digits|] + [rest[|digits|]];
    }
  }

  /** Every control and metadata topic of a device is routed back to that device's id. */
  lemma PublishedTopicsRouteBack(id: nat, control: string)
    ensures ParseDeviceTopic(ControlTopic(id, control)) == Some(DecimalString(id))
    ensures ParseDeviceTopic(MetaTypeTopic(id, control)) == Some(DecimalString(id))
  {
    ParseDeviceTopicMatches(ControlTopic(id, control), DecimalString(id));
    ParseDeviceTopicMatches(MetaTypeTopic(id, control), DecimalString(id));
  }

  /** A control topic is not a metadata topic when its control name does not end like "type". */
  lemma ControlTopicNotMeta(id: nat, control: string)
    requires |control| > 0 && control[|control| - 1] != 'e'
    ensures !IsMetaTopic(ControlTopic(id, control))
  {
    var t := ControlTopic(id, control);
    assert t[|t| - 1] == control[|control| - 1];
    assert t[|t| - 1] != MetaTypeSuffix[|MetaTypeSuffix| - 1];
  }
}
