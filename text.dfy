/**
 * The string primitives the bot relies on: ASCII digits and `int(...)` of a
 * digit run, decimal rendering (`f"{n}"`), `sep.join(...)`, `strip()`,
 * `lower()`, `split()` on whitespace and `split(c)` on one separator.
 */
module Text {

  predicate IsDigit(c: char) { '0' <= c <= '9' }

  predicate AllDigits(s: string) { forall i :: 0 <= i < |s| ==> IsDigit(s[i]) }

  /** Python's `str.isspace` restricted to the ASCII range. */
  predicate IsSpace(c: char) { c == ' ' || 9 <= c as int <= 13 || 28 <= c as int <= 31 }

  predicate NoSpace(s: string) { forall i :: 0 <= i < |s| ==> !IsSpace(s[i]) }

  predicate IsUpper(c: char) { 'A' <= c <= 'Z' }

  predicate Lacks(s: string, c: char) { forall i :: 0 <= i < |s| ==> s[i] != c }

  function DigitValue(c: char): (v: nat)
    requires IsDigit(c)
    ensures v < 10
  {
    c as int - '0' as int
  }

  function DigitChar(v: nat): (c: char)
    requires v < 10
    ensures IsDigit(c) && DigitValue(c) == v
  {
    ('0' as int + v) as char
  }

  /** `int(s)` for a run of ASCII digits, read most significant digit first. */
  function DigitsValue(s: string): nat
    requires AllDigits(s)
    decreases |s|
  {
    if s == [] then 0 else DigitsValue(s[..|s| - 1]) * 10 + DigitValue(s[|s| - 1])
  }

  /** `f"{n}"` for a non-negative integer: its decimal digits, no leading zero. */
  function NatToString(n: nat): (r: string)
    ensures r != [] && AllDigits(r)
    ensures DigitsValue(r) == n
    ensures |r| > 1 ==> r[0] != '0'
    decreases n
  {
    if n < 10 then [DigitChar(n)]
    else
      var prefix := NatToString(n / 10);
      assert (prefix + [DigitChar(n % 10)])[..|prefix|] == prefix;
      prefix + [DigitChar(n % 10)]
  }

  /** `sep.join(parts)`. */
  function Join(parts: seq<string>, sep: string): string
  {
    if |parts| == 0 then []
    else if |parts| == 1 then parts[0]
    else parts[0] + sep + Join(parts[1..], sep)
  }

  function LowerChar(c: char): char
  {
    if IsUpper(c) then (c as int + 32) as char else c
  }

  /** `s.lower()` on ASCII letters. */
  function Lower(s: string): (r: string)
    ensures |r| == |s|
    ensures forall i :: 0 <= i < |s| ==> r[i] == LowerChar(s[i])
  {
    seq(|s|, i requires 0 <= i < |s| => LowerChar(s[i]))
  }

  function TrimLeft(s: string): (r: string)
    ensures r == [] || !IsSpace(r[0])
    ensures |r| <= |s|
  {
    if s != [] && IsSpace(s[0]) then TrimLeft(s[1..]) else s
  }

  function TrimRight(s: string): (r: string)
    ensures r == [] || !IsSpace(r[|r| - 1])
    ensures |r| <= |s|
  {
    if s != [] && IsSpace(s[|s| - 1]) then TrimRight(s[..|s| - 1]) else s
  }

  /** `s.strip()`: leading and trailing whitespace removed. */
  function Strip(s: string): string
  {
    TrimRight(TrimLeft(s))
  }

  /** The words of `s.split()`: maximal runs of non-whitespace, `cur` being the word read so far. */
  function WordsFrom(s: string, cur: string): seq<string>
    decreases |s|
  {
    if s == [] then (if cur == [] then [] else [cur])
    else if IsSpace(s[0]) then
      (if cur == [] then WordsFrom(s[1..], []) else [cur] + WordsFrom(s[1..], []))
    else WordsFrom(s[1..], cur + [s[0]])
  }

  /** `s.split()` with no argument. */
  function Words(s: string): seq<string>
  {
    WordsFrom(s, [])
  }

  /** The pieces of `s.split(sep)` for a one-character separator, `cur` being the piece read so far. */
  function SplitFrom(s: string, sep: char, cur: string): (r: seq<string>)
    ensures |r| > 0
    decreases |s|
  {
    if s == [] then [cur]
    else if s[0] == sep then [cur] + SplitFrom(s[1..], sep, [])
    else SplitFrom(s[1..], sep, cur + [s[0]])
  }

  function SplitOn(s: string, sep: char): seq<string>
  {
    SplitFrom(s, sep, [])
  }

  // ---------------------------------------------------------------------
  // Lemmas
  // ---------------------------------------------------------------------

  /** Reading a decimal rendering back gives the number, and nothing but digits is produced. */
  lemma {:induction false} DigitsValueAppend(s: string, c: char)
    requires AllDigits(s) && IsDigit(c)
    ensures AllDigits(s + [c]) && DigitsValue(s + [c]) == DigitsValue(s) * 10 + DigitValue(c)
  {
    assert (s + [c])[..|s + [c]| - 1] == s;
  }

  /** A string with no upper-case letter is its own lower-case form. */
  lemma LowerIdentity(s: string)
    requires forall i :: 0 <= i < |s| ==> !IsUpper(s[i])
    ensures Lower(s) == s
  {
  }

  /** `strip()` leaves a string whose ends are not whitespace unchanged. */
  lemma StripIdentity(s: string)
    requires s == [] || (!IsSpace(s[0]) && !IsSpace(s[|s| - 1]))
    ensures Strip(s) == s
  {
  }

  /** `TrimLeft` keeps a suffix of its input. */
  lemma {:induction false} TrimLeftSuffix(s: string)
    ensures TrimLeft(s) == s[|s| - |TrimLeft(s)|..]
    decreases |s|
  {
    if s != [] && IsSpace(s[0]) {
      TrimLeftSuffix(s[1..]);
    }
  }

  /** `TrimRight` keeps a prefix of its input. */
  lemma {:induction false} TrimRightPrefix(s: string)
    ensures TrimRight(s) == s[..|TrimRight(s)|]
    decreases |s|
  {
    if s != [] && IsSpace(s[|s| - 1]) {
      TrimRightPrefix(s[..|s| - 1]);
    }
  }

  /** Every character `TrimLeft` keeps comes from its input. */
  lemma {:induction false} TrimLeftChars(s: string)
    ensures forall i :: 0 <= i < |TrimLeft(s)| ==> TrimLeft(s)[i] in s
  {
    var r := TrimLeft(s);
    TrimLeftSuffix(s);
    forall i | 0 <= i < |r| ensures r[i] in s {
      var j := |s| - |r| + i;
      assert s[|s| - |r|..][i] == s[j];
      assert r[i] == s[j];
    }
  }

  /** Every character `TrimRight` keeps comes from its input. */
  lemma {:induction false} TrimRightChars(s: string)
    ensures forall i :: 0 <= i < |TrimRight(s)| ==> TrimRight(s)[i] in s
  {
    var r := TrimRight(s);
    TrimRightPrefix(s);
    forall i | 0 <= i < |r| ensures r[i] in s {
      assert r[i] == s[i];
    }
  }

  /** What `strip()` returns has no whitespace at either end and only characters of its input. */
  lemma StripShape(s: string)
    ensures var r := Strip(s);
      (r == [] || (!IsSpace(r[0]) && !IsSpace(r[|r| - 1])))
      && (forall i :: 0 <= i < |r| ==> r[i] in s)
  {
    var l := TrimLeft(s);
    var r := TrimRight(l);
    TrimLeftChars(s);
    TrimRightChars(l);
    TrimRightPrefix(l);
    if r != [] {
      assert r[0] == l[0];
    }
  }

  /** Stripping removes characters and adds none. */
  lemma StripLacks(s: string, c: char)
    requires Lacks(s, c)
    ensures Lacks(Strip(s), c)
  {
    StripShape(s);
    var o := Strip(s);
    forall i | 0 <= i < |o| ensures o[i] != c {
      assert o[i] in s;
    }
  }

  /** A concatenation lacks `c` exactly when both halves do. */
  lemma ConcatLacks(a: string, b: string, c: char)
    ensures Lacks(a + b, c) <==> Lacks(a, c) && Lacks(b, c)
  {
    if Lacks(a + b, c) {
      forall i | 0 <= i < |b| ensures b[i] != c {
        assert (a + b)[|a| + i] == b[i];
      }
      forall i | 0 <= i < |a| ensures a[i] != c {
        assert (a + b)[i] == a[i];
      }
    }
  }

  /** A join of pieces without `c`, with a separator without `c`, has no `c`. */
  lemma {:induction false} JoinLacks(parts: seq<string>, sep: string, c: char)
    requires forall k :: 0 <= k < |parts| ==> Lacks(parts[k], c)
    requires Lacks(sep, c)
    ensures Lacks(Join(parts, sep), c)
  {
    if |parts| > 1 {
      JoinLacks(parts[1..], sep, c);
    }
  }

  /** The words of `split()` hold no whitespace. */
  lemma {:induction false} WordsFromNoSpace(s: string, cur: string)
    requires NoSpace(cur)
    ensures forall k :: 0 <= k < |WordsFrom(s, cur)| ==> NoSpace(WordsFrom(s, cur)[k])
    decreases |s|
  {
    if s != [] {
      if IsSpace(s[0]) {
        WordsFromNoSpace(s[1..], []);
      } else {
        WordsFromNoSpace(s[1..], cur + [s[0]]);
      }
    }
  }

  /** A join ends with the last character of its last part, when that part is non-empty. */
  lemma {:induction false} JoinLast(parts: seq<string>, sep: string)
    requires |parts| > 0 && parts[|parts| - 1] != []
    ensures var r := Join(parts, sep);
      |r| > 0 && r[|r| - 1] == parts[|parts| - 1][|parts[|parts| - 1]| - 1]
  {
    if |parts| > 1 {
      var rest := Join(parts[1..], sep);
      assert parts[1..][|parts| - 2] == parts[|parts| - 1];
      JoinLast(parts[1..], sep);
      assert Join(parts, sep) == parts[0] + sep + rest;
    }
  }

  /** The first and last characters of a join are those of the first and last part, when both are non-empty. */
  lemma JoinEnds(parts: seq<string>, sep: string)
    requires |parts| > 0 && parts[0] != [] && parts[|parts| - 1] != []
    ensures var r := Join(parts, sep);
      |r| > 0 && r[0] == parts[0][0] && r[|r| - 1] == parts[|parts| - 1][|parts[|parts| - 1]| - 1]
  {
    JoinLast(parts, sep);
    if |parts| > 1 {
      assert Join(parts, sep) == parts[0] + (sep + Join(parts[1..], sep));
    }
  }

  /** A run of non-whitespace characters extends the word being read. */
  lemma {:induction false} WordsFromRun(w: string, t: string, cur: string)
    requires NoSpace(w)
    ensures WordsFrom(w + t, cur) == WordsFrom(t, cur + w)
    decreases |w|
  {
    if w == [] {
      assert w + t == t && cur + w == cur;
    } else {
      assert (w + t)[0] == w[0] && !IsSpace(w[0]);
      assert (w + t)[1..] == w[1..] + t;
      assert cur + [w[0]] + w[1..] == cur + w;
      WordsFromRun(w[1..], t, cur + [w[0]]);
    }
  }

  /** `" ".join(ws).split() == ws` when every word is non-empty and free of whitespace. */
  lemma {:induction false} WordsOfJoin(ws: seq<string>)
    requires forall k :: 0 <= k < |ws| ==> ws[k] != [] && NoSpace(ws[k])
    ensures Words(Join(ws, " ")) == ws
  {
    if |ws| == 1 {
      WordsFromRun(ws[0], [], []);
      assert ws[0] + [] == ws[0];
    } else if |ws| > 1 {
      var rest := Join(ws[1..], " ");
      assert Join(ws, " ") == ws[0] + (" " + rest);
      WordsFromRun(ws[0], " " + rest, []);
      assert (" " + rest)[1..] == rest;
      WordsOfJoin(ws[1..]);
      assert [] + ws[0] == ws[0];
      assert [ws[0]] + ws[1..] == ws;
    }
  }

  /** A run without the separator extends the piece being read. */
  lemma {:induction false} SplitFromRun(w: string, t: string, sep: char, cur: string)
    requires Lacks(w, sep)
    ensures SplitFrom(w + t, sep, cur) == SplitFrom(t, sep, cur + w)
    decreases |w|
  {
    if w == [] {
      assert w + t == t && cur + w == cur;
    } else {
      assert (w + t)[0] == w[0] != sep;
      assert (w + t)[1..] == w[1..] + t;
      assert cur + [w[0]] + w[1..] == cur + w;
      SplitFromRun(w[1..], t, sep, cur + [w[0]]);
    }
  }

  /** `sep.join(parts).split(sep) == parts` when no part contains the separator. */
  lemma {:induction false} SplitOfJoin(parts: seq<string>, sep: char)
    requires |parts| > 0
    requires forall k :: 0 <= k < |parts| ==> Lacks(parts[k], sep)
    ensures SplitOn(Join(parts, [sep]), sep) == parts
  {
    if |parts| == 1 {
      SplitFromRun(parts[0], [], sep, []);
      assert parts[0] + [] == parts[0];
      assert [] + parts[0] == parts[0];
    } else {
      var rest := Join(parts[1..], [sep]);
      assert Join(parts, [sep]) == parts[0] + ([sep] + rest);
      SplitFromRun(parts[0], [sep] + rest, sep, []);
      assert ([sep] + rest)[1..] == rest;
      SplitOfJoin(parts[1..], sep);
      assert [] + parts[0] == parts[0];
      assert [parts[0]] + parts[1..] == parts;
    }
  }

  /** No piece of `s.split(sep)` contains the separator. */
  lemma {:induction false} SplitPiecesLackSep(s: string, sep: char, cur: string)
    requires Lacks(cur, sep)
    ensures forall k :: 0 <= k < |SplitFrom(s, sep, cur)| ==> Lacks(SplitFrom(s, sep, cur)[k], sep)
    decreases |s|
  {
    if s == [] {
    } else if s[0] == sep {
      SplitPiecesLackSep(s[1..], sep, []);
      var rest := SplitFrom(s[1..], sep, []);
      assert SplitFrom(s, sep, cur) == [cur] + rest;
    } else {
      assert SplitFrom(s, sep, cur) == SplitFrom(s[1..], sep, cur + [s[0]]);
      SplitPiecesLackSep(s[1..], sep, cur + [s[0]]);
    }
  }
}
