/**
 * `parse_duration`: a compact token such as "2d3h" or "90m" to a number of
 * seconds. The token is stripped and lower-cased, then read character by
 * character: digits accumulate into a pending number, a unit letter d, h or m
 * closes it, anything else is an error; a dangling number or a total that is
 * not positive is an error too.
 */
module Duration {
  import opened Wrappers
  import opened Text

  predicate IsUnit(c: char) { c == 'd' || c == 'h' || c == 'm' }

  /** Seconds per unit: a day, an hour, a minute. */
  function UnitSeconds(c: char): nat
    requires IsUnit(c)
  {
    if c == 'd' then 86400 else if c == 'h' then 3600 else 60
  }

  /** `int(num) * units[u]`: the seconds one term stands for. */
  function TermSeconds(num: string, u: char): nat
    requires AllDigits(num) && IsUnit(u)
  {
    DigitsValue(num) * UnitSeconds(u)
  }

  /** `s.strip().lower()`. */
  function Normalize(s: string): string
  {
    Lower(Strip(s))
  }

  /**
   * What the character loop yields on the characters `t` still to read, with
   * `total` seconds accumulated and the digit run `num` pending.
   */
  function Scan(t: string, total: nat, num: string): Option<nat>
    requires AllDigits(num)
    decreases |t|
  {
    if t == [] then
      (if num != [] || total == 0 then None else Some(total))
    else if IsDigit(t[0]) then
      DigitsValueAppend(num, t[0]);
      Scan(t[1..], total, num + [t[0]])
    else if IsUnit(t[0]) && num != [] then
      Scan(t[1..], total + TermSeconds(num, t[0]), [])
    else None
  }

  /** The value `parse_duration(s)` returns, or None where it raises. */
  function Parse(s: string): Option<nat>
  {
    if s == [] then None else Scan(Normalize(s), 0, [])
  }

  /** `parse_duration`: the empty check, then the character loop over the normalized text. */
  method ParseDuration(s: string) returns (r: Option<nat>)
    ensures r == Parse(s)
  {
    if s == [] {
      return None;
    }
    r := ScanLoop(Normalize(s));
  }

  /** The character loop of `parse_duration`, proved to compute `Scan`. */
  method ScanLoop(t: string) returns (r: Option<nat>)
    ensures r == Scan(t, 0, [])
  {
    var total: nat := 0;
    var num: string := [];
    for i := 0 to |t|
      invariant AllDigits(num)
      invariant Scan(t[i..], total, num) == Scan(t, 0, [])
    {
      var ch := t[i];
      ScanUnfold(t[i..], total, num);
      assert t[i..][0] == ch && t[i..][1..] == t[i + 1..];
      if IsDigit(ch) {
        num := num + [ch];
      } else if IsUnit(ch) && num != [] {
        total := total + TermSeconds(num, ch);
        num := [];
      } else {
        return None;
      }
    }
    assert t[|t|..] == [];
    if num != [] || total <= 0 {
      return None;
    }
    return Some(total);
  }

  /** One step of the character loop. */
  lemma ScanUnfold(t: string, total: nat, num: string)
    requires AllDigits(num) && t != []
    ensures IsDigit(t[0]) ==>
      AllDigits(num + [t[0]]) && Scan(t, total, num) == Scan(t[1..], total, num + [t[0]])
    ensures !IsDigit(t[0]) && IsUnit(t[0]) && num != [] ==>
      Scan(t, total, num) == Scan(t[1..], total + TermSeconds(num, t[0]), [])
    ensures !IsDigit(t[0]) && !(IsUnit(t[0]) && num != []) ==> Scan(t, total, num) == None
  {
    if IsDigit(t[0]) {
      DigitsValueAppend(num, t[0]);
    }
  }

  // ---------------------------------------------------------------------
  // The token grammar: a sequence of (digit run, unit) terms
  // ---------------------------------------------------------------------

  datatype Term = Term(digits: string, unit: char)

  predicate WellFormed(terms: seq<Term>)
  {
    forall k :: 0 <= k < |terms| ==> terms[k].digits != [] && AllDigits(terms[k].digits) && IsUnit(terms[k].unit)
  }

  /** The token spelled by a sequence of terms. */
  function Render(terms: seq<Term>): string
  {
    if terms == [] then [] else terms[0].digits + [terms[0].unit] + Render(terms[1..])
  }

  /** Σ n·unit over the terms. */
  function Total(terms: seq<Term>): nat
    requires WellFormed(terms)
  {
    if terms == [] then 0
    else TermSeconds(terms[0].digits, terms[0].unit) + Total(terms[1..])
  }

  /** The terms a token is read as; meaningful where `Scan` succeeds. */
  function Decompose(t: string, num: string): seq<Term>
    decreases |t|
  {
    if t == [] then []
    else if IsDigit(t[0]) then Decompose(t[1..], num + [t[0]])
    else if IsUnit(t[0]) && num != [] then [Term(num, t[0])] + Decompose(t[1..], [])
    else []
  }

  lemma {:induction false} ScanDigits(digits: string, t: string, total: nat, num: string)
    requires AllDigits(digits) && AllDigits(num)
    ensures AllDigits(num + digits)
    ensures Scan(digits + t, total, num) == Scan(t, total, num + digits)
    decreases |digits|
  {
    if digits == [] {
      assert digits + t == t && num + digits == num;
    } else {
      assert (digits + t)[0] == digits[0];
      assert (digits + t)[1..] == digits[1..] + t;
      assert num + [digits[0]] + digits[1..] == num + digits;
      DigitsValueAppend(num, digits[0]);
      ScanDigits(digits[1..], t, total, num + [digits[0]]);
    }
  }

  /** One term is read as its number of seconds, added to the total. */
  lemma ScanTerm(digits: string, u: char, rest: string, total: nat)
    requires digits != [] && AllDigits(digits) && IsUnit(u)
    ensures Scan(digits + ([u] + rest), total, []) == Scan(rest, total + TermSeconds(digits, u), [])
  {
    ScanDigits(digits, [u] + rest, total, []);
    assert [] + digits == digits;
    assert ([u] + rest)[0] == u && ([u] + rest)[1..] == rest;
  }

  /** A well-formed sequence of terms is read as its total. */
  lemma {:induction false} ScanRender(terms: seq<Term>, total: nat)
    requires WellFormed(terms)
    ensures Scan(Render(terms), total, []) == if total + Total(terms) > 0 then Some(total + Total(terms)) else None
  {
    if terms != [] {
      var step := total + TermSeconds(terms[0].digits, terms[0].unit);
      ScanRenderStep(terms, total);
      ScanRender(terms[1..], step);
    }
  }

  /** Reading the first term of a rendering moves its seconds into the total. */
  lemma ScanRenderStep(terms: seq<Term>, total: nat)
    requires WellFormed(terms) && terms != []
    ensures WellFormed(terms[1..])
    ensures var step := total + TermSeconds(terms[0].digits, terms[0].unit);
      Scan(Render(terms), total, []) == Scan(Render(terms[1..]), step, [])
      && total + Total(terms) == step + Total(terms[1..])
  {
    var head := terms[0];
    var rest := Render(terms[1..]);
    assert Render(terms) == head.digits + ([head.unit] + rest);
    ScanTerm(head.digits, head.unit, rest, total);
  }

  /** `terms` is a well-formed reading of `text` whose total, added to `total`, is `n > 0`. */
  predicate Explains(terms: seq<Term>, text: string, total: nat, n: nat)
  {
    WellFormed(terms) && Render(terms) == text && total + Total(terms) == n && n > 0
  }

  /** Whatever `Scan` accepts is a well-formed sequence of terms, read as its total. */
  lemma {:induction false} ScanSound(t: string, total: nat, num: string, n: nat)
    requires AllDigits(num)
    requires Scan(t, total, num) == Some(n)
    ensures Explains(Decompose(t, num), num + t, total, n)
    decreases |t|, 1
  {
    if t == [] {
      assert num + t == [];
    } else if IsDigit(t[0]) {
      ScanSoundDigit(t, total, num, n);
    } else {
      ScanSoundUnit(t, total, num, n);
    }
  }

  lemma {:induction false} ScanSoundDigit(t: string, total: nat, num: string, n: nat)
    requires AllDigits(num) && t != [] && IsDigit(t[0])
    requires Scan(t, total, num) == Some(n)
    ensures Explains(Decompose(t, num), num + t, total, n)
    decreases |t|, 0
  {
    DigitsValueAppend(num, t[0]);
    ScanSound(t[1..], total, num + [t[0]], n);
    assert num + [t[0]] + t[1..] == num + t;
  }

  lemma {:induction false} ScanSoundUnit(t: string, total: nat, num: string, n: nat)
    requires AllDigits(num) && t != [] && !IsDigit(t[0])
    requires Scan(t, total, num) == Some(n)
    ensures Explains(Decompose(t, num), num + t, total, n)
    decreases |t|, 0
  {
    ScanUnitStep(t, total, num);
    var u := t[0];
    ScanSound(t[1..], total + TermSeconds(num, u), [], n);
    var rest := Decompose(t[1..], []);
    assert [] + t[1..] == t[1..];
    ExplainsCons(num, u, t[1..], rest, total, n);
    assert [u] + t[1..] == t;
  }

  /** Where `Scan` succeeds on a non-digit, that character is a unit closing a pending number. */
  lemma ScanUnitStep(t: string, total: nat, num: string)
    requires AllDigits(num) && t != [] && !IsDigit(t[0])
    requires Scan(t, total, num).Some?
    ensures IsUnit(t[0]) && num != []
    ensures Scan(t, total, num) == Scan(t[1..], total + TermSeconds(num, t[0]), [])
    ensures Decompose(t, num) == [Term(num, t[0])] + Decompose(t[1..], [])
  {
  }

  /** Prefixing one term to an explanation of the rest explains the whole. */
  lemma ExplainsCons(num: string, u: char, tail: string, rest: seq<Term>, total: nat, n: nat)
    requires num != [] && AllDigits(num) && IsUnit(u)
    requires Explains(rest, tail, total + TermSeconds(num, u), n)
    ensures Explains([Term(num, u)] + rest, num + ([u] + tail), total, n)
  {
    RenderCons(Term(num, u), rest);
    assert num + [u] + tail == num + ([u] + tail);
  }

  lemma RenderCons(head: Term, rest: seq<Term>)
    ensures Render([head] + rest) == head.digits + [head.unit] + Render(rest)
    ensures WellFormed(rest) && head.digits != [] && AllDigits(head.digits) && IsUnit(head.unit) ==>
      WellFormed([head] + rest) && Total([head] + rest) == TermSeconds(head.digits, head.unit) + Total(rest)
  {
    assert ([head] + rest)[0] == head && ([head] + rest)[1..] == rest;
  }

  lemma RenderNonEmpty(terms: seq<Term>)
    ensures terms != [] ==> |Render(terms)| > |terms[0].digits|
  {
    if terms != [] {
      assert Render(terms) == terms[0].digits + [terms[0].unit] + Render(terms[1..]);
    }
  }

  lemma {:induction false} RenderChars(terms: seq<Term>)
    requires WellFormed(terms)
    ensures forall i :: 0 <= i < |Render(terms)| ==> IsDigit(Render(terms)[i]) || IsUnit(Render(terms)[i])
  {
    if terms != [] {
      RenderChars(terms[1..]);
      var r := Render(terms);
      var head := terms[0].digits + [terms[0].unit];
      assert r == head + Render(terms[1..]);
      forall i | 0 <= i < |r| ensures IsDigit(r[i]) || IsUnit(r[i]) {
        if i >= |head| {
          assert r[i] == Render(terms[1..])[i - |head|];
        } else if i < |terms[0].digits| {
          assert r[i] == terms[0].digits[i];
        }
      }
    }
  }

  /** The rendering of well-formed terms is already stripped and lower-case. */
  lemma NormalizeRender(terms: seq<Term>)
    requires WellFormed(terms)
    ensures Normalize(Render(terms)) == Render(terms)
  {
    var r := Render(terms);
    RenderChars(terms);
    if r != [] {
      assert !IsSpace(r[0]) && !IsSpace(r[|r| - 1]);
    }
    StripIdentity(r);
    LowerIdentity(r);
  }

  lemma {:induction false} TotalAppend(a: seq<Term>, b: seq<Term>)
    requires WellFormed(a) && WellFormed(b)
    ensures WellFormed(a + b) && Total(a + b) == Total(a) + Total(b)
  {
    assert WellFormed(a + b);
    if a != [] {
      assert (a + b)[0] == a[0] && (a + b)[1..] == a[1..] + b;
      TotalAppend(a[1..], b);
    } else {
      assert a + b == b;
    }
  }

  // ---------------------------------------------------------------------
  // What `parse_duration` accepts, and what it returns
  // ---------------------------------------------------------------------

  /**
   * Completeness: a token whose stripped, lower-cased form is a well-formed
   * sequence of terms parses to their total when that total is positive, and
   * is rejected when it is zero.
   */
  lemma ParseWellFormed(s: string, terms: seq<Term>)
    requires WellFormed(terms) && Normalize(s) == Render(terms)
    ensures Parse(s) == if Total(terms) > 0 then Some(Total(terms)) else None
  {
    ScanRender(terms, 0);
    RenderNonEmpty(terms);
  }

  /**
   * Soundness: a token that parses is, after stripping and lower-casing, a
   * well-formed sequence of (digit run, unit) terms whose total is the
   * positive result.
   */
  lemma ParseAccepted(s: string)
    requires Parse(s).Some?
    ensures Explains(Decompose(Normalize(s), []), Normalize(s), 0, Parse(s).value)
  {
    ScanSound(Normalize(s), 0, [], Parse(s).value);
    assert [] + Normalize(s) == Normalize(s);
  }

  /** Reordering the terms of a token (as blocks) does not change its total. */
  lemma ParseReordered(a: seq<Term>, b: seq<Term>)
    requires WellFormed(a) && WellFormed(b)
    ensures Parse(Render(a + b)) == Parse(Render(b + a))
  {
    TotalAppend(a, b);
    TotalAppend(b, a);
    NormalizeRender(a + b);
    NormalizeRender(b + a);
    ParseWellFormed(Render(a + b), a + b);
    ParseWellFormed(Render(b + a), b + a);
  }

  /** The one-term token `<c><u>` for a digit `c` and a unit `u`. */
  function SingleTerm(c: char, u: char): (terms: seq<Term>)
    requires IsDigit(c) && IsUnit(u)
    ensures WellFormed(terms) && Render(terms) == [c, u]
    ensures Total(terms) == DigitValue(c) * UnitSeconds(u)
  {
    assert DigitsValue([c]) == DigitValue(c) by {
      assert [c][..0] == [];
    }
    [Term([c], u)]
  }

  /** Rejected tokens: the empty one, and digits with no unit. */
  lemma RejectedExamples()
    ensures Parse("") == None
    ensures Parse("10") == None
  {
    DanglingDigits("10");
  }

  /** A zero total is rejected: "0m". */
  lemma ZeroRejected()
    ensures Parse("0m") == None
  {
    var zero := SingleTerm('0', 'm');
    NormalizeRender(zero);
    assert "0m" == ['0', 'm'];
    ParseWellFormed("0m", zero);
  }

  /** Digits with no unit after them are rejected. */
  lemma DanglingDigits(s: string)
    requires s != [] && AllDigits(s)
    ensures Parse(s) == None
  {
    assert !IsSpace(s[0]) && !IsSpace(s[|s| - 1]);
    StripIdentity(s);
    LowerIdentity(s);
    ScanDigits(s, [], 0, []);
    assert s + [] == s && [] + s == s;
  }

  /** Units may come in any order: "1d2h" and "2h1d" are the same 26 hours. */
  lemma ReorderedExample()
    ensures Parse("1d2h") == Some(93600) && Parse("2h1d") == Some(93600)
  {
    var a, b := SingleTerm('1', 'd'), SingleTerm('2', 'h');
    assert "1d2h" == Render(a) + Render(b);
    RenderAppend(a, b);
    TotalAppend(a, b);
    NormalizeRender(a + b);
    ParseWellFormed("1d2h", a + b);
    ParseReordered(a, b);
    RenderAppend(b, a);
    assert "2h1d" == Render(b) + Render(a);
  }

  /** Hours and minutes add up: "1h2m" is 3720 seconds. */
  lemma HoursMinutesExample()
    ensures Parse("1h2m") == Some(3720)
  {
    var a, b := SingleTerm('1', 'h'), SingleTerm('2', 'm');
    RenderAppend(a, b);
    TotalAppend(a, b);
    assert "1h2m" == Render(a) + Render(b);
    NormalizeRender(a + b);
    ParseWellFormed("1h2m", a + b);
  }

  lemma {:induction false} RenderAppend(a: seq<Term>, b: seq<Term>)
    ensures Render(a + b) == Render(a) + Render(b)
  {
    if a == [] {
      assert a + b == b;
    } else {
      assert (a + b)[0] == a[0] && (a + b)[1..] == a[1..] + b;
      RenderAppend(a[1..], b);
    }
  }

  /** Surrounding whitespace and upper-case unit letters are accepted. */
  lemma NormalizedExample()
    ensures Parse(" 2H ") == Some(7200)
  {
    assert TrimLeft(" 2H ") == "2H ";
    assert TrimRight("2H ") == "2H";
    assert Lower("2H") == "2h";
    var b := SingleTerm('2', 'h');
    ParseWellFormed(" 2H ", b);
  }
}
