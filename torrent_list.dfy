/** The torrent list's remaining-time label: seconds rendered as `HH:MM:SS`,
    or `∞` when the time is unknown. */
module TorrentList {
  import opened Text

  /** A JavaScript number: a finite value (held exactly), an infinity, or NaN. */
  datatype Number = Finite(v: real) | PosInf | NegInf | NaN

  /** The label for an unknown remaining time. */
  const Unbounded: string := "∞"

  /** Digits of a non-negative integer padded with zeros to at least two. */
  function Pad2(n: nat): (r: string)
    ensures |r| >= 2 && (n < 100 ==> |r| == 2)
    ensures IsDecimal(r) && NumeralValue(r, 10) == n
  {
    Pad2Digits(n);
    PadStart(Numeral(n, 10), 2, '0')
  }

  predicate IsDecimal(p: string) {
    forall i :: 0 <= i < |p| ==> IsDigitIn(p[i], 10)
  }

  /** Whole hours, `Math.floor(s / 3600)`. */
  function Hours(s: real): nat
    requires s >= 0.0
  {
    (s / 3600.0).Floor
  }

  /** Whole minutes past the hour, `Math.floor((s % 3600) / 60)`. */
  function Minutes(s: real): nat
    requires s >= 0.0
  {
    ((s - 3600.0 * Hours(s) as real) / 60.0).Floor
  }

  /** Whole seconds past the minute, `Math.floor(s % 60)`. */
  function Secs(s: real): nat
    requires s >= 0.0
  {
    (s - 60.0 * (s / 60.0).Floor as real).Floor
  }

  /** `formatTime`: `∞` for `Infinity` and for negative inputs; otherwise hours,
      minutes and seconds, each padded to two digits. NaN slips through every
      comparison and renders as `NaN` in each field. */
  function FormatTime(seconds: Number): (r: string)
    ensures r == Unbounded <==> seconds.PosInf? || seconds.NegInf? || (seconds.Finite? && seconds.v < 0.0)
  {
    match seconds
    case PosInf => Unbounded
    case NegInf => Unbounded
    case NaN => "NaN:NaN:NaN"
    case Finite(s) =>
      if s < 0.0 then Unbounded
      else Pad2(Hours(s)) + ":" + Pad2(Minutes(s)) + ":" + Pad2(Secs(s))
  }

  /** Hours, minutes and seconds add up to the whole seconds, and minutes and
      seconds stay below sixty. */
  lemma FieldsAddUp(s: real)
    requires s >= 0.0
    ensures Minutes(s) < 60 && Secs(s) < 60
    ensures Hours(s) * 3600 + Minutes(s) * 60 + Secs(s) == s.Floor
  {
    var h := Hours(s);
    var r1 := s - 3600.0 * h as real;
    assert 0.0 <= r1 < 3600.0;
    var m := Minutes(s);
    assert m == (r1 / 60.0).Floor;
    assert (s / 60.0).Floor == 60 * h + m by {
      assert s / 60.0 == (60 * h) as real + r1 / 60.0;
    }
    var rest := r1 - 60.0 * m as real;
    assert 0.0 <= rest < 60.0;
    assert s - 60.0 * (s / 60.0).Floor as real == rest;
    assert s == (h * 3600 + m * 60) as real + rest;
  }

  lemma Pad2Digits(n: nat)
    ensures var r := PadStart(Numeral(n, 10), 2, '0');
      IsDecimal(r) && NumeralValue(r, 10) == n && (n < 100 ==> |r| == 2)
  {
    var d := Numeral(n, 10);
    NumeralRoundTrip(n, 10);
    if |d| < 2 {
      NumeralValueZeros(2 - |d|, d, 10);
      assert PadStart(d, 2, '0') == Repeat(2 - |d|, '0') + d;
    }
    if n < 100 {
      assert Pow(10, 2) == 100;
      NumeralLength(n, 10, 2);
    }
  }

  /** For a finite, non-negative input the label splits at `:` into three
      decimal fields, hours (at least two digits), minutes and seconds (exactly
      two), that give back the whole number of seconds. */
  lemma FormatTimeFields(s: real)
    requires s >= 0.0
    ensures var parts := Split(FormatTime(Finite(s)), ':');
      |parts| == 3
      && IsDecimal(parts[0]) && IsDecimal(parts[1]) && IsDecimal(parts[2])
      && |parts[0]| >= 2 && |parts[1]| == 2 && |parts[2]| == 2
      && NumeralValue(parts[1], 10) < 60 && NumeralValue(parts[2], 10) < 60
      && NumeralValue(parts[0], 10) * 3600 + NumeralValue(parts[1], 10) * 60
         + NumeralValue(parts[2], 10) == s.Floor
  {
    FieldsAddUp(s);
    LabelFields(Hours(s), Minutes(s), Secs(s));
  }

  lemma LabelFields(h: nat, m: nat, sec: nat)
    requires m < 60 && sec < 60
    ensures var parts := Split(Pad2(h) + ":" + Pad2(m) + ":" + Pad2(sec), ':');
      |parts| == 3
      && IsDecimal(parts[0]) && IsDecimal(parts[1]) && IsDecimal(parts[2])
      && |parts[0]| >= 2 && |parts[1]| == 2 && |parts[2]| == 2
      && NumeralValue(parts[0], 10) == h && NumeralValue(parts[1], 10) == m
      && NumeralValue(parts[2], 10) == sec
  {
    var a, b, c := Pad2(h), Pad2(m), Pad2(sec);
    ThreeParts(a, b, c);
    var parts := Split(a + ":" + b + ":" + c, ':');
    assert parts[0] == a && parts[1] == b && parts[2] == c;
  }

  /** Three decimal fields joined by `:` split back into the same fields. */
  lemma ThreeParts(a: string, b: string, c: string)
    requires IsDecimal(a) && IsDecimal(b) && IsDecimal(c)
    ensures Split(a + ":" + b + ":" + c, ':') == [a, b, c]
  {
    var parts := [a, b, c];
    assert Join([c], [':']) == c;
    assert Join([b, c], [':']) == b + ":" + c by {
      assert [b, c][1..] == [c];
    }
    assert Join(parts, [':']) == a + ":" + b + ":" + c by {
      assert parts[1..] == [b, c];
    }
    forall k | 0 <= k < 3
      ensures ':' !in parts[k]
    {
    }
    SplitJoin(parts, ':');
  }
}
