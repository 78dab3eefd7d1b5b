/**
 * The two remaining-time texts of the bot: `fmt_delta` (giveaway displays,
 * days/hours/minutes, seconds only when nothing larger is shown) and the AFK
 * elapsed-time text (hours/minutes when positive, seconds always). Both are a
 * list of quantities `<n><unit>` joined by single spaces; `ReadBack` reads
 * such a text back and is the inverse used to state what they mean.
 */
module TimeFormat {
  import opened Wrappers
  import opened Text

  datatype Quantity = Quantity(amount: nat, unit: char)

  predicate IsClockUnit(c: char) { c == 'd' || c == 'h' || c == 'm' || c == 's' }

  function ClockSeconds(c: char): nat
    requires IsClockUnit(c)
  {
    if c == 'd' then 86400 else if c == 'h' then 3600 else if c == 'm' then 60 else 1
  }

  /** Larger units have a larger rank. */
  function Rank(c: char): nat
  {
    if c == 'd' then 3 else if c == 'h' then 2 else if c == 'm' then 1 else 0
  }

  predicate ClockUnits(qs: seq<Quantity>)
  {
    forall k :: 0 <= k < |qs| ==> IsClockUnit(qs[k].unit)
  }

  /** Units appear largest first, each at most once. */
  predicate LargestFirst(qs: seq<Quantity>)
  {
    forall i, j :: 0 <= i < j < |qs| ==> Rank(qs[i].unit) > Rank(qs[j].unit)
  }

  /** `f"{n}{unit}"`. */
  function Show(q: Quantity): string
  {
    NatToString(q.amount) + [q.unit]
  }

  function ShowAll(qs: seq<Quantity>): (r: seq<string>)
    ensures |r| == |qs|
  {
    if qs == [] then [] else [Show(qs[0])] + ShowAll(qs[1..])
  }

  /** `" ".join(parts)`. */
  function Render(qs: seq<Quantity>): string
  {
    Join(ShowAll(qs), " ")
  }

  /** The number of seconds a list of quantities stands for. */
  function Seconds(qs: seq<Quantity>): nat
    requires ClockUnits(qs)
  {
    if qs == [] then 0 else qs[0].amount * ClockSeconds(qs[0].unit) + Seconds(qs[1..])
  }

  // ---------------------------------------------------------------------
  // The formatters
  // ---------------------------------------------------------------------

  /** The day, hour and minute parts of `fmt_delta` for a clamped count, each only when non-zero. */
  function ClockParts(c: nat): seq<Quantity>
  {
    var d, rem := c / 86400, c % 86400;
    var h, rem2 := rem / 3600, rem % 3600;
    var m := rem2 / 60;
    (if d != 0 then [Quantity(d, 'd')] else [])
    + (if h != 0 then [Quantity(h, 'h')] else [])
    + (if m != 0 then [Quantity(m, 'm')] else [])
  }

  /** The `parts` list of `fmt_delta`, after the clamp of negative input to 0: the seconds only when nothing else shows. */
  function DeltaParts(seconds: int): seq<Quantity>
  {
    var c := if seconds < 0 then 0 else seconds;
    var parts := ClockParts(c);
    if parts == [] then [Quantity(((c % 86400) % 3600) % 60, 's')] else parts
  }

  /** `fmt_delta(seconds)`. */
  function FmtDelta(seconds: int): string
  {
    Render(DeltaParts(seconds))
  }

  /** The parts of the AFK elapsed-time text (Python floor division and modulo). */
  function AfkParts(totalSeconds: int): seq<Quantity>
  {
    var hours := totalSeconds / 3600;
    var minutes := (totalSeconds % 3600) / 60;
    var seconds := totalSeconds % 60;
    (if hours > 0 then [Quantity(hours, 'h')] else [])
    + (if minutes > 0 then [Quantity(minutes, 'm')] else [])
    + [Quantity(seconds, 's')]
  }

  /** The AFK elapsed-time text. */
  function AfkTime(totalSeconds: int): string
  {
    Render(AfkParts(totalSeconds))
  }

  // ---------------------------------------------------------------------
  // Reading a time text back
  // ---------------------------------------------------------------------

  /**
   * Reads `<digits><unit>` quantities separated by single spaces, `num`
   * being the digits read so far; None for anything else.
   */
  function ReadFrom(t: string, num: string): Option<seq<Quantity>>
    requires AllDigits(num)
    decreases |t|
  {
    if t == [] then None
    else if IsDigit(t[0]) then
      DigitsValueAppend(num, t[0]);
      ReadFrom(t[1..], num + [t[0]])
    else if IsClockUnit(t[0]) && num != [] then
      var q := Quantity(DigitsValue(num), t[0]);
      if |t| == 1 then Some([q])
      else if t[1] == ' ' then
        match ReadFrom(t[2..], [])
        case Some(rest) => Some([q] + rest)
        case None => None
      else None
    else None
  }

  function ReadBack(t: string): Option<seq<Quantity>>
  {
    ReadFrom(t, [])
  }

  lemma {:induction false} ReadDigits(digits: string, t: string, num: string)
    requires AllDigits(digits) && AllDigits(num)
    ensures AllDigits(num + digits)
    ensures ReadFrom(digits + t, num) == ReadFrom(t, num + digits)
    decreases |digits|
  {
    if digits == [] {
      assert digits + t == t && num + digits == num;
    } else {
      assert (digits + t)[0] == digits[0];
      assert (digits + t)[1..] == digits[1..] + t;
      assert num + [digits[0]] + digits[1..] == num + digits;
      DigitsValueAppend(num, digits[0]);
      ReadDigits(digits[1..], t, num + [digits[0]]);
    }
  }

  /** A unit letter closes the pending number; a space then starts the next quantity. */
  lemma ReadUnit(u: char, tail: string, num: string)
    requires IsClockUnit(u) && num != [] && AllDigits(num)
    ensures tail == [] ==> ReadFrom([u] + tail, num) == Some([Quantity(DigitsValue(num), u)])
    ensures |tail| > 1 && tail[0] == ' ' ==>
      ReadFrom([u] + tail, num) ==
        match ReadFrom(tail[1..], []) case Some(rest) => Some([Quantity(DigitsValue(num), u)] + rest) case None => None
  {
    var t := [u] + tail;
    assert t[0] == u;
    if |tail| > 1 {
      assert t[1] == tail[0] && t[2..] == tail[1..];
    }
  }

  /** The text of one quantity followed by `tail` starts with that quantity. */
  lemma ReadShow(q: Quantity, tail: string)
    requires IsClockUnit(q.unit)
    ensures tail == [] ==> ReadBack(Show(q) + tail) == Some([q])
    ensures |tail| > 1 && tail[0] == ' ' ==>
      ReadBack(Show(q) + tail) == match ReadBack(tail[1..]) case Some(rest) => Some([q] + rest) case None => None
  {
    var digits := NatToString(q.amount);
    assert Show(q) + tail == digits + ([q.unit] + tail);
    ReadDigits(digits, [q.unit] + tail, []);
    assert [] + digits == digits;
    ReadUnit(q.unit, tail, digits);
  }

  /** Round trip: reading a rendered, non-empty list of quantities gives it back. */
  lemma {:induction false} ReadRender(qs: seq<Quantity>)
    requires qs != [] && ClockUnits(qs)
    ensures ReadBack(Render(qs)) == Some(qs)
  {
    if |qs| == 1 {
      assert Render(qs) == Show(qs[0]) + [];
      ReadShow(qs[0], []);
      assert [qs[0]] == qs;
    } else {
      var rest := Render(qs[1..]);
      assert ShowAll(qs)[0] == Show(qs[0]) && ShowAll(qs)[1..] == ShowAll(qs[1..]);
      assert Render(qs) == Show(qs[0]) + (" " + rest);
      assert ShowAll(qs[1..]) != [] && ShowAll(qs[1..])[0] == Show(qs[1]);
      RestRenderLong(qs[1..]);
      assert (" " + rest)[1..] == rest;
      ReadShow(qs[0], " " + rest);
      ReadRender(qs[1..]);
      assert [qs[0]] + qs[1..] == qs;
    }
  }

  /** A rendered non-empty list is at least two characters long. */
  lemma RestRenderLong(qs: seq<Quantity>)
    requires qs != []
    ensures |Render(qs)| >= 2
  {
    var parts := ShowAll(qs);
    assert parts[0] == Show(qs[0]);
    forall k | 0 <= k < |parts| ensures parts[k] != [] {
      ShowAllAt(qs, k);
    }
    JoinLength(parts, " ");
  }

  lemma {:induction false} ShowAllAt(qs: seq<Quantity>, k: nat)
    requires k < |qs|
    ensures ShowAll(qs)[k] == Show(qs[k])
  {
    if k > 0 {
      ShowAllAt(qs[1..], k - 1);
    }
  }

  /** A join is at least as long as its first part. */
  lemma JoinLength(parts: seq<string>, sep: string)
    requires |parts| > 0
    ensures |Join(parts, sep)| >= |parts[0]|
  {
  }

  // ---------------------------------------------------------------------
  // What the formatters say
  // ---------------------------------------------------------------------

  /**
   * `fmt_delta`: the parts are largest unit first, each non-zero unless the
   * text is a lone seconds part, which appears exactly when the clamped input
   * is under a minute; they stand for the clamped input, rounded down to the
   * minute once it reaches a minute.
   */
  lemma DeltaPartsMeaning(seconds: int)
    ensures var c := if seconds < 0 then 0 else seconds;
      var qs := DeltaParts(seconds);
      qs != [] && ClockUnits(qs) && LargestFirst(qs)
      && (forall k :: 0 <= k < |qs| && qs[k].unit != 's' ==> qs[k].amount > 0)
      && (qs[|qs| - 1].unit == 's' <==> c < 60)
      && Seconds(qs) == (if c < 60 then c else c - c % 60)
    ensures var qs := DeltaParts(seconds);
      forall k :: 0 <= k < |qs| ==>
        (qs[k].unit == 'h' ==> qs[k].amount < 24) && (qs[k].unit == 'm' ==> qs[k].amount < 60)
        && (qs[k].unit == 's' ==> qs[k].amount < 60)
  {
    DeltaPartsShape(seconds);
    DeltaPartsBounds(seconds);
  }

  /** The order, sum and positivity of the `fmt_delta` parts. */
  lemma DeltaPartsShape(seconds: int)
    ensures var c := if seconds < 0 then 0 else seconds;
      var qs := DeltaParts(seconds);
      qs != [] && ClockUnits(qs) && LargestFirst(qs)
      && (forall k :: 0 <= k < |qs| && qs[k].unit != 's' ==> qs[k].amount > 0)
      && (qs[|qs| - 1].unit == 's' <==> c < 60)
      && Seconds(qs) == (if c < 60 then c else c - c % 60)
  {
    var c := if seconds < 0 then 0 else seconds;
    ClockPartsMeaning(c);
    ClockArith(c);
    var p := ClockParts(c);
    if p != [] {
      assert p[|p| - 1].unit != 's';
    }
  }

  /** Each `fmt_delta` part is below the next unit up: hours under 24, minutes and seconds under 60. */
  lemma DeltaPartsBounds(seconds: int)
    ensures var qs := DeltaParts(seconds);
      forall k :: 0 <= k < |qs| ==>
        (qs[k].unit == 'h' ==> qs[k].amount < 24) && (qs[k].unit == 'm' ==> qs[k].amount < 60)
        && (qs[k].unit == 's' ==> qs[k].amount < 60)
  {
    var c := if seconds < 0 then 0 else seconds;
    ClockPartsMeaning(c);
    ClockArith(c);
  }

  /** The optional parts for a clamped count: none under a minute, otherwise its whole minutes. */
  lemma ClockPartsMeaning(c: nat)
    ensures var p := ClockParts(c);
      ClockUnits(p) && LargestFirst(p)
      && (forall k :: 0 <= k < |p| ==> p[k].unit != 's' && p[k].amount > 0)
      && (p == [] <==> c < 60)
      && Seconds(p) == c - c % 60
    ensures var p := ClockParts(c);
      forall k :: 0 <= k < |p| ==>
        (p[k].unit == 'h' ==> p[k].amount < 24) && (p[k].unit == 'm' ==> p[k].amount < 60)
  {
    var d, rem := c / 86400, c % 86400;
    var h, rem2 := rem / 3600, rem % 3600;
    var m := rem2 / 60;
    ClockArith(c);
    var qd := if d != 0 then [Quantity(d, 'd')] else [];
    var qh := if h != 0 then [Quantity(h, 'h')] else [];
    var qm := if m != 0 then [Quantity(m, 'm')] else [];
    OptionalParts(qd, qh, qm, d, h, m);
    assert ClockParts(c) == qd + qh + qm;
  }

  /** The optional day, hour and minute parts: positive amounts, largest first, adding up to their seconds. */
  lemma OptionalParts(qd: seq<Quantity>, qh: seq<Quantity>, qm: seq<Quantity>, d: nat, h: nat, m: nat)
    requires qd == (if d != 0 then [Quantity(d, 'd')] else [])
    requires qh == (if h != 0 then [Quantity(h, 'h')] else [])
    requires qm == (if m != 0 then [Quantity(m, 'm')] else [])
    ensures var p := qd + qh + qm;
      ClockUnits(p) && LargestFirst(p)
      && (forall k :: 0 <= k < |p| ==> p[k].unit != 's' && p[k].amount > 0)
      && Seconds(p) == d * 86400 + h * 3600 + m * 60
      && (p == [] <==> d == 0 && h == 0 && m == 0)
    ensures var p := qd + qh + qm;
      forall k :: 0 <= k < |p| ==>
        (p[k].unit == 'd' ==> p[k].amount == d) && (p[k].unit == 'h' ==> p[k].amount == h)
        && (p[k].unit == 'm' ==> p[k].amount == m)
  {
    OptionalSeconds(qd, d, 'd');
    OptionalSeconds(qh, h, 'h');
    OptionalSeconds(qm, m, 'm');
    SecondsAppend(qd, qh);
    SecondsAppend(qd + qh, qm);
    OptionalPartsLargestFirst(qd, qh, qm);
    var p := qd + qh + qm;
    forall k | 0 <= k < |p|
      ensures p[k].amount > 0
      ensures (p[k].unit == 'd' ==> p[k].amount == d) && (p[k].unit == 'h' ==> p[k].amount == h)
      ensures p[k].unit == 'm' ==> p[k].amount == m
    {
      PartAt(qd, qh, qm, k);
    }
  }

  /** An optional part stands for its amount in seconds, and for nothing when absent. */
  lemma OptionalSeconds(q: seq<Quantity>, n: nat, u: char)
    requires IsClockUnit(u)
    requires q == (if n != 0 then [Quantity(n, u)] else [])
    ensures ClockUnits(q) && Seconds(q) == n * ClockSeconds(u)
    ensures |q| <= 1 && (q == [] <==> n == 0)
    ensures forall k :: 0 <= k < |q| ==> q[k].unit == u && q[k].amount == n && n > 0
  {
    if n != 0 {
      assert q[1..] == [];
    }
  }

  /** Day/hour/minute/second decomposition of a non-negative count. */
  lemma ClockArith(c: nat)
    ensures var d, rem := c / 86400, c % 86400;
      var h, rem2 := rem / 3600, rem % 3600;
      var m, s := rem2 / 60, rem2 % 60;
      c == d * 86400 + h * 3600 + m * 60 + s && c % 60 == s
      && h < 24 && m < 60 && s < 60
      && (c < 60 <==> d == 0 && h == 0 && m == 0)
  {
  }

  /** Optional day, hour and minute parts in that order are largest first. */
  lemma OptionalPartsLargestFirst(qd: seq<Quantity>, qh: seq<Quantity>, qm: seq<Quantity>)
    requires |qd| <= 1 && |qh| <= 1 && |qm| <= 1
    requires forall k :: 0 <= k < |qd| ==> qd[k].unit == 'd'
    requires forall k :: 0 <= k < |qh| ==> qh[k].unit == 'h'
    requires forall k :: 0 <= k < |qm| ==> qm[k].unit == 'm'
    ensures LargestFirst(qd + qh + qm) && ClockUnits(qd + qh + qm)
    ensures forall k :: 0 <= k < |qd + qh + qm| ==> (qd + qh + qm)[k].unit != 's'
  {
    var p := qd + qh + qm;
    forall i, j | 0 <= i < j < |p| ensures Rank(p[i].unit) > Rank(p[j].unit) {
      PartAt(qd, qh, qm, i);
      PartAt(qd, qh, qm, j);
    }
    forall k | 0 <= k < |p| ensures IsClockUnit(p[k].unit) && p[k].unit != 's' {
      PartAt(qd, qh, qm, k);
    }
  }

  lemma PartAt(qd: seq<Quantity>, qh: seq<Quantity>, qm: seq<Quantity>, k: nat)
    requires k < |qd + qh + qm|
    ensures k < |qd| ==> (qd + qh + qm)[k] == qd[k]
    ensures |qd| <= k < |qd| + |qh| ==> (qd + qh + qm)[k] == qh[k - |qd|]
    ensures |qd| + |qh| <= k ==> (qd + qh + qm)[k] == qm[k - |qd| - |qh|]
  {
  }

  lemma {:induction false} SecondsAppend(a: seq<Quantity>, b: seq<Quantity>)
    requires ClockUnits(a) && ClockUnits(b)
    ensures ClockUnits(a + b) && Seconds(a + b) == Seconds(a) + Seconds(b)
  {
    if a == [] {
      assert a + b == b;
    } else {
      assert (a + b)[0] == a[0] && (a + b)[1..] == a[1..] + b;
      SecondsAppend(a[1..], b);
    }
  }

  /** The giveaway remaining-time text reads back as `DeltaParts`, so it means what that lemma says. */
  lemma FmtDeltaReadsBack(seconds: int)
    ensures ReadBack(FmtDelta(seconds)) == Some(DeltaParts(seconds))
  {
    DeltaPartsMeaning(seconds);
    ReadRender(DeltaParts(seconds));
  }

  /** Floor division of an elapsed time into hours, minutes and seconds. */
  lemma AfkArith(t: int)
    ensures var hours, minutes, secs := t / 3600, (t % 3600) / 60, t % 60;
      t % 3600 == minutes * 60 + secs && t == hours * 3600 + t % 3600
      && 0 <= minutes && 0 <= secs < 60
      && (t >= 0 <==> hours >= 0)
  {
    var hours, r := t / 3600, t % 3600;
    var minutes, r2 := r / 60, r % 60;
    assert t == hours * 3600 + r;
    assert r == minutes * 60 + r2;
    var q := hours * 60 + minutes;
    assert t == q * 60 + r2;
    assert t % 60 == r2;
    if t >= 0 {
      assert hours >= 0;
    } else {
      assert hours < 0;
    }
  }

  /** The AFK parts: clock units, largest first, seconds last, adding up as the source's arithmetic does. */
  lemma AfkPartsMeaning(t: int)
    ensures var qs := AfkParts(t);
      qs != [] && ClockUnits(qs) && LargestFirst(qs) && qs[|qs| - 1].unit == 's'
      && Seconds(qs) == (if t >= 0 then t else t % 3600)
    ensures var qs := AfkParts(t);
      forall k :: 0 <= k < |qs| ==>
        (qs[k].unit == 'h' ==> qs[k].amount > 0) && (qs[k].unit == 'm' ==> 0 < qs[k].amount < 60)
        && (qs[k].unit == 's' ==> qs[k].amount < 60)
  {
    var hours, minutes, secs := t / 3600, (t % 3600) / 60, t % 60;
    var qh := if hours > 0 then [Quantity(hours, 'h')] else [];
    var qm := if minutes > 0 then [Quantity(minutes, 'm')] else [];
    var qs := [Quantity(secs, 's')];
    assert AfkParts(t) == qh + qm + qs;
    AfkSeconds(t, qh, qm, qs);
    AfkShape(qh, qm, qs);
    AfkBounds(t, qh, qm, qs);
  }

  /** The AFK parts shown are positive hours, minutes below an hour, seconds below a minute. */
  lemma AfkBounds(t: int, qh: seq<Quantity>, qm: seq<Quantity>, qs: seq<Quantity>)
    requires qh == (if t / 3600 > 0 then [Quantity(t / 3600, 'h')] else [])
    requires qm == (if (t % 3600) / 60 > 0 then [Quantity((t % 3600) / 60, 'm')] else [])
    requires qs == [Quantity(t % 60, 's')]
    ensures var p := qh + qm + qs;
      forall k :: 0 <= k < |p| ==>
        (p[k].unit == 'h' ==> p[k].amount > 0) && (p[k].unit == 'm' ==> 0 < p[k].amount < 60)
        && (p[k].unit == 's' ==> p[k].amount < 60)
  {
    AfkArith(t);
    assert (t % 3600) / 60 < 60;
    var p := qh + qm + qs;
    forall k | 0 <= k < |p|
      ensures (p[k].unit == 'h' ==> p[k].amount > 0) && (p[k].unit == 'm' ==> 0 < p[k].amount < 60)
      ensures p[k].unit == 's' ==> p[k].amount < 60
    {
      PartAt(qh, qm, qs, k);
    }
  }

  lemma AfkSeconds(t: int, qh: seq<Quantity>, qm: seq<Quantity>, qs: seq<Quantity>)
    requires qh == (if t / 3600 > 0 then [Quantity(t / 3600, 'h')] else [])
    requires qm == (if (t % 3600) / 60 > 0 then [Quantity((t % 3600) / 60, 'm')] else [])
    requires qs == [Quantity(t % 60, 's')]
    ensures ClockUnits(qh + qm + qs) && Seconds(qh + qm + qs) == (if t >= 0 then t else t % 3600)
  {
    AfkArith(t);
    SecondsAppend(qh, qm);
    SecondsAppend(qh + qm, qs);
    assert Seconds(qh + qm) == (if t / 3600 > 0 then t / 3600 * 3600 else 0) + (t % 3600) / 60 * 60;
  }

  lemma AfkShape(qh: seq<Quantity>, qm: seq<Quantity>, qs: seq<Quantity>)
    requires |qh| <= 1 && |qm| <= 1 && |qs| == 1
    requires forall k :: 0 <= k < |qh| ==> qh[k].unit == 'h'
    requires forall k :: 0 <= k < |qm| ==> qm[k].unit == 'm'
    requires qs[0].unit == 's'
    ensures var p := qh + qm + qs; p != [] && LargestFirst(p) && p[|p| - 1].unit == 's'
  {
    var p := qh + qm + qs;
    forall i, j | 0 <= i < j < |p| ensures Rank(p[i].unit) > Rank(p[j].unit) {
      PartAt(qh, qm, qs, i);
      PartAt(qh, qm, qs, j);
    }
  }

  /**
   * The AFK text: hours and minutes only when positive, seconds always last;
   * for a non-negative elapsed time it stands for exactly that many seconds
   * (hours are not folded into days), for a negative one the negative hours
   * are dropped.
   */
  lemma AfkTimeMeaning(totalSeconds: int)
    ensures var qs := AfkParts(totalSeconds);
      ReadBack(AfkTime(totalSeconds)) == Some(qs)
      && ClockUnits(qs) && LargestFirst(qs) && qs[|qs| - 1].unit == 's'
      && Seconds(qs) == (if totalSeconds >= 0 then totalSeconds else totalSeconds % 3600)
    ensures var qs := AfkParts(totalSeconds);
      forall k :: 0 <= k < |qs| ==>
        (qs[k].unit == 'h' ==> qs[k].amount > 0) && (qs[k].unit == 'm' ==> 0 < qs[k].amount < 60)
        && (qs[k].unit == 's' ==> qs[k].amount < 60)
  {
    AfkPartsMeaning(totalSeconds);
    ReadRender(AfkParts(totalSeconds));
  }

  /** 3700 seconds show as "1h 1m": the 40 seconds are dropped. */
  lemma FmtDeltaExample()
    ensures FmtDelta(3700) == "1h 1m"
    ensures FmtDelta(-5) == "0s"
  {
    assert NatToString(1) == "1" && NatToString(0) == "0";
    assert Show(Quantity(1, 'h')) == "1h" && Show(Quantity(1, 'm')) == "1m" && Show(Quantity(0, 's')) == "0s";
    var hm := [Quantity(1, 'h'), Quantity(1, 'm')];
    assert DeltaParts(3700) == hm;
    assert hm[1..] == [Quantity(1, 'm')];
    assert ShowAll(hm) == ["1h", "1m"];
    assert DeltaParts(-5) == [Quantity(0, 's')];
    assert ShowAll([Quantity(0, 's')]) == ["0s"];
  }
}
