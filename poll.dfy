/**
 * The poll command: `poll "Question" a | b | c` posts a question with two
 * to five options, and each user's button press moves their one vote.
 */
module Poll {
  import opened Wrappers
  import opened Text

  import opened Ids

  datatype PollSpec = PollSpec(question: string, options: seq<string>)

  datatype PollError = Usage | TooFewOptions

  /** The position of the first `c` in `s`. */
  function IndexOf(s: string, c: char): (r: Option<nat>)
    ensures r.Some? ==> r.value < |s| && s[r.value] == c && Lacks(s[..r.value], c)
    ensures r.None? <==> Lacks(s, c)
  {
    if s == [] then None
    else if s[0] == c then Some(0)
    else match IndexOf(s[1..], c)
      case None => None
      case Some(k) =>
        assert s[..k + 1] == [s[0]] + s[1..][..k];
        Some(k + 1)
  }

  lemma {:induction false} IndexOfAfter(a: string, c: char, b: string)
    requires Lacks(a, c)
    ensures IndexOf(a + [c] + b, c) == Some(|a|)
  {
    if a != [] {
      assert (a + [c] + b)[1..] == a[1..] + [c] + b;
      IndexOfAfter(a[1..], c, b);
    }
  }

  /** A non-empty option with no whitespace at either end. */
  predicate Stripped(o: string)
  {
    o != [] && !IsSpace(o[0]) && !IsSpace(o[|o| - 1])
  }

  /** `[o.strip() for o in pieces if o.strip()]`. */
  function Options(pieces: seq<string>): (r: seq<string>)
    ensures |r| <= |pieces|
    ensures forall k :: 0 <= k < |r| ==> Stripped(r[k])
  {
    if pieces == [] then []
    else
      var o := Strip(pieces[0]);
      StripShape(pieces[0]);
      (if o == [] then [] else [o]) + Options(pieces[1..])
  }

  /** Options cut from pieces without `|` have no `|`. */
  lemma {:induction false} OptionsLack(pieces: seq<string>)
    requires forall k :: 0 <= k < |pieces| ==> Lacks(pieces[k], '|')
    ensures forall k :: 0 <= k < |Options(pieces)| ==> Lacks(Options(pieces)[k], '|')
  {
    if pieces != [] {
      StripLacks(pieces[0], '|');
      OptionsLack(pieces[1..]);
    }
  }

  /** Options that are already stripped and non-empty pass through unchanged. */
  lemma {:induction false} OptionsOfStripped(os: seq<string>)
    requires forall k :: 0 <= k < |os| ==> Stripped(os[k])
    ensures Options(os) == os
  {
    if os != [] {
      StripIdentity(os[0]);
      OptionsOfStripped(os[1..]);
      assert [os[0]] + os[1..] == os;
    }
  }

  /** The at most five options a poll keeps. */
  function FirstFive(os: seq<string>): (r: seq<string>)
    ensures |r| <= 5 && |r| <= |os| && r == os[..|r|]
    ensures |os| <= 5 ==> r == os
  {
    if |os| > 5 then os[..5] else os
  }

  /** The options from the text after the question: stripped, `|`-separated, two to five of them. */
  function PollOptions(tail: string): (r: Result<seq<string>, PollError>)
    ensures r.Ok? ==>
      2 <= |r.value| <= 5
      && forall k :: 0 <= k < |r.value| ==> Stripped(r.value[k]) && Lacks(r.value[k], '|')
    ensures r.Err? ==> r.error == TooFewOptions
  {
    var raw := Strip(tail);
    SplitPiecesLackSep(raw, '|', []);
    var options := Options(SplitOn(raw, '|'));
    OptionsLack(SplitOn(raw, '|'));
    if |options| < 2 then Err(TooFewOptions) else Ok(FirstFive(options))
  }

  /**
   * The parsing of the poll command: the question between the first two
   * double quotes, then the options after them.
   */
  function ParsePoll(data: string): (r: Result<PollSpec, PollError>)
    ensures r.Ok? ==>
      2 <= |r.value.options| <= 5 && Lacks(r.value.question, '"')
      && forall k :: 0 <= k < |r.value.options| ==>
        Stripped(r.value.options[k]) && Lacks(r.value.options[k], '|')
    ensures Lacks(data, '"') ==> r == Err(Usage)
  {
    match IndexOf(data, '"')
    case None => Err(Usage)
    case Some(i) =>
      var after := data[i + 1..];
      match IndexOf(after, '"')
      case None => Err(Usage)
      case Some(j) =>
        match PollOptions(after[j + 1..])
        case Err(e) => Err(e)
        case Ok(options) => Ok(PollSpec(after[..j], options))
  }

  /** A single double quote is not enough for a question. */
  lemma OneQuote(a: string, b: string)
    requires Lacks(a, '"') && Lacks(b, '"')
    ensures ParsePoll(a + "\"" + b) == Err(Usage)
  {
    IndexOfAfter(a, '"', b);
    assert (a + "\"" + b)[|a| + 1..] == b;
  }

  /** Leading whitespace goes in a strip. */
  lemma {:induction false} StripSpaceFirst(s: string)
    requires s != [] && !IsSpace(s[0]) && !IsSpace(s[|s| - 1])
    ensures Strip(" " + s) == s
  {
    assert (" " + s)[1..] == s;
    StripIdentity(s);
  }

  /** The options written after the question, `|`-separated, come back as written. */
  lemma OptionsOfJoin(os: seq<string>)
    requires |os| >= 1
    requires forall k :: 0 <= k < |os| ==> Stripped(os[k]) && Lacks(os[k], '|')
    ensures Options(SplitOn(Strip(" " + Join(os, "|")), '|')) == os
  {
    JoinEnds(os, "|");
    StripSpaceFirst(Join(os, "|"));
    SplitOfJoin(os, '|');
    OptionsOfStripped(os);
  }

  /** The question ends at the second double quote; the options follow after a space. */
  lemma QuestionSplit(q: string, tail: string)
    requires Lacks(q, '"')
    ensures var data := "\"" + q + "\" " + tail;
      IndexOf(data, '"') == Some(0)
      && IndexOf(data[1..], '"') == Some(|q|)
      && data[1..][..|q|] == q
      && data[1..][|q| + 1..] == " " + tail
  {
    var data := "\"" + q + "\" " + tail;
    assert data[1..] == q + ['"'] + (" " + tail);
    IndexOfAfter(q, '"', " " + tail);
  }

  /** The pieces of `sep.join(os)` cut at each `|`, for the spaced separator ` | `; `lead` goes before the first. */
  function SpacedPieces(os: seq<string>, lead: string): (r: seq<string>)
    ensures |r| == |os|
  {
    if |os| == 0 then []
    else if |os| == 1 then [lead + os[0]]
    else [lead + os[0] + " "] + SpacedPieces(os[1..], " ")
  }

  /** Joining with ` | ` is joining the spaced pieces with `|`. */
  lemma {:induction false} JoinSpaced(os: seq<string>, lead: string)
    requires |os| >= 1
    ensures lead + Join(os, " | ") == Join(SpacedPieces(os, lead), "|")
    decreases |os|
  {
    if |os| > 1 {
      JoinSpaced(os[1..], " ");
      var p := SpacedPieces(os, lead);
      assert p[1..] == SpacedPieces(os[1..], " ");
      calc {
        Join(p, "|");
        (lead + os[0] + " ") + "|" + Join(SpacedPieces(os[1..], " "), "|");
        (lead + os[0] + " ") + "|" + (" " + Join(os[1..], " | "));
        lead + (os[0] + " | " + Join(os[1..], " | "));
      }
    }
  }

  /** An option with at most one space on each side strips back to itself. */
  lemma StripPadded(o: string, before: string, after: string)
    requires Stripped(o)
    requires before == "" || before == " "
    requires after == "" || after == " "
    ensures Strip(before + o + after) == o
  {
    var t := o + after;
    assert t != [] && t[0] == o[0];
    assert TrimLeft(t) == t;
    if before == " " {
      assert (before + o + after)[1..] == t;
      assert TrimLeft(before + o + after) == TrimLeft(t);
    } else {
      assert before + o + after == t;
    }
    assert TrimRight(o) == o;
    if after == " " {
      assert t[..|t| - 1] == o;
      assert TrimRight(t) == TrimRight(o);
    } else {
      assert t == o;
    }
  }

  /** The spaced pieces have no `|` and strip back to the options. */
  lemma {:induction false} OptionsOfSpaced(os: seq<string>, lead: string)
    requires |os| >= 1 && (lead == "" || lead == " ")
    requires forall k :: 0 <= k < |os| ==> Stripped(os[k]) && Lacks(os[k], '|')
    ensures forall k :: 0 <= k < |os| ==> Lacks(SpacedPieces(os, lead)[k], '|')
    ensures Options(SpacedPieces(os, lead)) == os
    decreases |os|
  {
    var p := SpacedPieces(os, lead);
    if |os| == 1 {
      StripPadded(os[0], lead, "");
      assert lead + os[0] == lead + os[0] + "";
    } else {
      OptionsOfSpaced(os[1..], " ");
      StripPadded(os[0], lead, " ");
      assert p[1..] == SpacedPieces(os[1..], " ");
      forall k | 0 <= k < |os| ensures Lacks(p[k], '|') {
        if k > 0 {
          assert p[k] == SpacedPieces(os[1..], " ")[k - 1];
        }
      }
    }
    assert [os[0]] + os[1..] == os;
  }

  /**
   * Options written after a space and separated by `|` or by ` | ` come
   * back, the first five of them, when there are two.
   */
  lemma PollOptionsOfJoin(os: seq<string>, sep: string)
    requires |os| >= 1 && (sep == "|" || sep == " | ")
    requires forall k :: 0 <= k < |os| ==> Stripped(os[k]) && Lacks(os[k], '|')
    ensures PollOptions(" " + Join(os, sep)) == if |os| < 2 then Err(TooFewOptions) else Ok(FirstFive(os))
  {
    if sep == "|" {
      OptionsOfJoin(os);
    } else {
      JoinEnds(os, sep);
      StripSpaceFirst(Join(os, sep));
      JoinSpaced(os, "");
      assert "" + Join(os, sep) == Join(os, sep);
      OptionsOfSpaced(os, "");
      SplitOfJoin(SpacedPieces(os, ""), '|');
    }
  }

  /**
   * `poll "q" o1|o2|...` or `poll "q" o1 | o2 | ...`: the question comes
   * back, and the options too, the first five of them, when there are at
   * least two.
   */
  lemma PollRoundTrip(q: string, os: seq<string>, sep: string)
    requires Lacks(q, '"') && |os| >= 1 && (sep == "|" || sep == " | ")
    requires forall k :: 0 <= k < |os| ==> Stripped(os[k]) && Lacks(os[k], '|')
    ensures ParsePoll("\"" + q + "\" " + Join(os, sep)) ==
      if |os| < 2 then Err(TooFewOptions) else Ok(PollSpec(q, FirstFive(os)))
  {
    QuestionSplit(q, Join(os, sep));
    ParsePollAt("\"" + q + "\" " + Join(os, sep), q, " " + Join(os, sep));
    PollOptionsOfJoin(os, sep);
  }

  /** Once the two quotes are found, the result is the question and what the tail parses to. */
  lemma ParsePollAt(data: string, q: string, rest: string)
    requires IndexOf(data, '"') == Some(0)
    requires IndexOf(data[1..], '"') == Some(|q|)
    requires data[1..][..|q|] == q && data[1..][|q| + 1..] == rest
    ensures ParsePoll(data) == match PollOptions(rest)
      case Err(e) => Err(e)
      case Ok(o) => Ok(PollSpec(q, o))
  {
  }

  /** Every user is counted for at most one option. */
  predicate SingleChoice(votes: map<string, set<UserId>>)
  {
    forall u, a, b :: a in votes && b in votes && u in votes[a] && u in votes[b] ==> a == b
  }

  /** A vote for `cid`: the voter is taken out of every option and put in `cid`. */
  function CastVote(votes: map<string, set<UserId>>, cid: string, u: UserId): (r: map<string, set<UserId>>)
    requires cid in votes
    ensures r.Keys == votes.Keys
    ensures forall k :: k in r ==> (u in r[k] <==> k == cid)
    ensures forall k, v :: k in r && v != u ==> (v in r[k] <==> v in votes[k])
  {
    map k | k in votes :: if k == cid then votes[k] + {u} else votes[k] - {u}
  }

  /** Voting keeps every user on at most one option. */
  lemma CastVoteSingleChoice(votes: map<string, set<UserId>>, cid: string, u: UserId)
    requires cid in votes && SingleChoice(votes)
    ensures SingleChoice(CastVote(votes, cid, u))
  {
  }

  /** Voting twice for the same option is voting once. */
  lemma CastVoteIdempotent(votes: map<string, set<UserId>>, cid: string, u: UserId)
    requires cid in votes
    ensures CastVote(CastVote(votes, cid, u), cid, u) == CastVote(votes, cid, u)
  {
    var once := CastVote(votes, cid, u);
    var twice := CastVote(once, cid, u);
    forall k | k in once ensures twice[k] == once[k] {
      if k == cid {
        assert u in once[k];
      } else {
        assert u !in once[k];
      }
    }
  }

  /** A poll's buttons and the voters behind each. */
  class PollView {
    var votes: map<string, set<UserId>>

    ghost predicate Valid()
      reads this
    {
      SingleChoice(votes)
    }

    /** A poll with no votes yet on any of its options. */
    constructor (options: seq<string>)
      ensures Valid()
      ensures votes.Keys == set k | 0 <= k < |options| :: options[k]
      ensures forall o :: o in votes ==> votes[o] == {}
    {
      votes := map k | 0 <= k < |options| :: options[k] := {};
    }

    /**
     * `interaction_check`: a press on one of the options moves the presser's
     * vote there and confirms it; any other press changes nothing.
     */
    method Vote(cid: Option<string>, user: UserId) returns (reply: Option<string>)
      modifies this
      ensures cid.Some? && cid.value != [] && cid.value in old(votes) ==>
        votes == CastVote(old(votes), cid.value, user) && reply == Some("You voted for " + cid.value)
      ensures !(cid.Some? && cid.value != [] && cid.value in old(votes)) ==>
        votes == old(votes) && reply == None
      ensures old(Valid()) ==> Valid()
    {
      if cid.None? || cid.value == [] || cid.value !in votes {
        return None;
      }
      var choice := cid.value;
      var pending := votes.Keys;
      while pending != {}
        invariant pending <= votes.Keys
        invariant votes.Keys == old(votes).Keys
        invariant forall k :: k in pending ==> votes[k] == old(votes)[k]
        invariant forall k :: k in votes && k !in pending ==> votes[k] == old(votes)[k] - {user}
        decreases pending
      {
        var k :| k in pending;
        votes := votes[k := votes[k] - {user}];
        pending := pending - {k};
      }
      votes := votes[choice := votes[choice] + {user}];
      reply := Some("You voted for " + choice);
      forall k | k in votes ensures votes[k] == CastVote(old(votes), choice, user)[k] {
      }
      assert votes == CastVote(old(votes), choice, user);
      if old(Valid()) {
        CastVoteSingleChoice(old(votes), choice, user);
      }
    }
  }
}
