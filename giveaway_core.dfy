/**
 * The giveaway feature's values and pure steps: the running entry of
 * `giveaways` and the finished entry of `gw_records`, the join toggle, the
 * winner draw, the record merge, the reroll pool, the argument split of the
 * start command and the display texts.
 */
module GiveawayCore {
  import opened Wrappers
  import opened Text
  import Duration
  import TimeFormat

  import opened Ids

  /** A running giveaway, keyed in the registry by its announcement message id. */
  datatype Giveaway = Giveaway(endsAt: int, prize: string, winners: nat, participants: set<UserId>, channel: ChannelId)

  /** What is kept of a finished giveaway: every participant seen, every user who ever won. */
  datatype Record = Record(prize: string, participants: set<UserId>, won: set<UserId>, channel: ChannelId)

  /** The title and body of a display card. */
  datatype View = View(title: string, description: string)

  function Min(a: int, b: int): int { if a < b then a else b }

  /** `max(1, winners)`: the number of winners an end draws. */
  function DrawCount(winners: nat): nat { if winners < 1 then 1 else winners }

  // ---------------------------------------------------------------------
  // Display texts
  // ---------------------------------------------------------------------

  /** `winners_label(n)`: the count, then "winner" for exactly one and "winners" otherwise. */
  function WinnersLabel(n: nat): (r: string)
    ensures var k := |NatToString(n)|;
      k < |r| && AllDigits(r[..k]) && DigitsValue(r[..k]) == n
      && r[k..] == (if n == 1 then " winner" else " winners")
  {
    if n == 1 then
      assert NatToString(1) == "1";
      "1 winner"
    else NatToString(n) + " winners"
  }

  /** The winner label is one line. */
  lemma WinnersLabelOneLine(n: nat)
    ensures Lacks(WinnersLabel(n), '\n')
  {
    if n == 1 {
      assert WinnersLabel(n) == "1 winner";
    } else {
      assert Lacks(NatToString(n), '\n');
      assert Lacks(" winners", '\n');
      ConcatLacks(NatToString(n), " winners", '\n');
    }
  }

  /** The lines of `build_gw_description`. */
  function DescriptionLines(prize: string, endsIn: string, participants: nat, winners: nat): seq<string>
  {
    ["Prize: " + prize,
     "\U{1F3C6} " + WinnersLabel(winners),
     "\U{23F3} Ends in: " + endsIn,
     "\U{1F465} Participants: " + NatToString(participants),
     "",
     "Press Join to participate."]
  }

  /** `build_gw_description(prize, ends_in, participants, winners)`. */
  function BuildDescription(prize: string, endsIn: string, participants: nat, winners: nat): string
  {
    Join(DescriptionLines(prize, endsIn, participants, winners), "\n")
  }

  /** The running card: title with the winner count, body with the time left. */
  function RunningView(g: Giveaway, now: int): View
  {
    View("Giveaway running \U{2014} " + WinnersLabel(g.winners),
         BuildDescription(g.prize, TimeFormat.FmtDelta(g.endsAt - now), |g.participants|, g.winners))
  }

  /** The card `gwstart` posts: the full duration to go and nobody in yet. */
  function StartCard(prize: string, winners: nat, seconds: nat): View
  {
    View("Giveaway running \U{2014} " + WinnersLabel(winners), BuildDescription(prize, TimeFormat.FmtDelta(seconds), 0, winners))
  }

  /** The card posted at the start is the running card of the new giveaway at that moment. */
  lemma StartCardIsRunning(g: Giveaway, now: int, seconds: nat)
    requires g.endsAt == now + seconds && g.participants == {}
    ensures StartCard(g.prize, g.winners, seconds) == RunningView(g, now)
  {
    assert g.endsAt - now == seconds && |g.participants| == 0;
  }

  /** `<@id>`. */
  function Mention(u: UserId): string
  {
    "<@" + NatToString(u) + ">"
  }

  function Mentions(ws: seq<UserId>): (r: seq<string>)
    ensures |r| == |ws|
    ensures forall i :: 0 <= i < |ws| ==> r[i] == Mention(ws[i])
  {
    if ws == [] then [] else [Mention(ws[0])] + Mentions(ws[1..])
  }

  /** The result line of an end: the winners' mentions, or that nobody took part. */
  function ResultText(winners: seq<UserId>): string
  {
    if winners == [] then "No one participated." else "Winner(s): " + Join(Mentions(winners), ", ")
  }

  /** The card once a giveaway has ended: the drawn count in the title, prize and result below. */
  function EndedView(g: Giveaway, winners: seq<UserId>): View
  {
    View("Giveaway ended \U{2014} " + WinnersLabel(DrawCount(g.winners)), "Prize: " + g.prize + "\n" + ResultText(winners))
  }

  /** The reply to a reroll: a link to the giveaway, the new winner's mention and the prize. */
  function RerollReply(jumpUrl: string, u: UserId, prize: string): string
  {
    "Reroll for giveaway " + jumpUrl + "\nNew winner: " + Mention(u) + "\nPrize: " + prize
  }

  /** The message posted in the channel when a giveaway ends. */
  function Announcement(prize: string, winners: seq<UserId>): string
  {
    "Giveaway ended \U{2014} Prize: " + prize + "\n" + ResultText(winners)
  }

  /** The fixed words of the end and reroll texts are one line each. */
  lemma LabelsOneLine()
    ensures Lacks("<@", '\n') && Lacks(">", '\n') && Lacks("Winner(s): ", '\n') && Lacks(", ", '\n')
    ensures Lacks("Prize: ", '\n') && Lacks("Giveaway ended \U{2014} Prize: ", '\n')
    ensures Lacks("Reroll for giveaway ", '\n') && Lacks("New winner: ", '\n')
    ensures Lacks("\U{1F3C6} ", '\n') && Lacks("\U{23F3} Ends in: ", '\n')
    ensures Lacks("\U{1F465} Participants: ", '\n') && Lacks("Press Join to participate.", '\n')
  {
  }

  /** A mention is one line. */
  lemma MentionOneLine(u: UserId)
    ensures Lacks(Mention(u), '\n')
  {
    LabelsOneLine();
    var d := NatToString(u);
    assert Lacks(d, '\n');
    ConcatLacks("<@", d, '\n');
    ConcatLacks("<@" + d, ">", '\n');
  }

  /**
   * The result line says that nobody took part exactly when nobody won,
   * names a sole winner by mention, and stays on one line.
   */
  lemma ResultTextMeaning(ws: seq<UserId>)
    ensures ResultText(ws) == "No one participated." <==> ws == []
    ensures |ws| == 1 ==> ResultText(ws) == "Winner(s): " + Mention(ws[0])
    ensures Lacks(ResultText(ws), '\n')
  {
    if ws == [] {
      assert Lacks("No one participated.", '\n');
    } else {
      assert ResultText(ws)[0] == 'W';
      LabelsOneLine();
      var ms := Mentions(ws);
      forall k | 0 <= k < |ms| ensures Lacks(ms[k], '\n') {
        MentionOneLine(ws[k]);
      }
      JoinLacks(ms, ", ", '\n');
      ConcatLacks("Winner(s): ", Join(ms, ", "), '\n');
    }
  }

  /**
   * The ended card and the announcement read back, line by line, as the
   * prize and the result line.
   */
  lemma EndTexts(g: Giveaway, ws: seq<UserId>)
    requires Lacks(g.prize, '\n')
    ensures SplitOn(EndedView(g, ws).description, '\n') == ["Prize: " + g.prize, ResultText(ws)]
    ensures SplitOn(Announcement(g.prize, ws), '\n') == ["Giveaway ended \U{2014} Prize: " + g.prize, ResultText(ws)]
  {
    ResultTextMeaning(ws);
    LabelsOneLine();
    var first := "Prize: " + g.prize;
    var head := "Giveaway ended \U{2014} Prize: " + g.prize;
    ConcatLacks("Prize: ", g.prize, '\n');
    ConcatLacks("Giveaway ended \U{2014} Prize: ", g.prize, '\n');
    assert Join([first, ResultText(ws)], "\n") == EndedView(g, ws).description;
    assert Join([head, ResultText(ws)], "\n") == Announcement(g.prize, ws);
    SplitOfJoin([first, ResultText(ws)], '\n');
    SplitOfJoin([head, ResultText(ws)], '\n');
  }

  /** The reroll reply reads back, line by line, as the link, the new winner's mention and the prize. */
  lemma RerollReplyLines(jumpUrl: string, u: UserId, prize: string)
    requires Lacks(jumpUrl, '\n') && Lacks(prize, '\n')
    ensures SplitOn(RerollReply(jumpUrl, u, prize), '\n')
      == ["Reroll for giveaway " + jumpUrl, "New winner: " + Mention(u), "Prize: " + prize]
  {
    MentionOneLine(u);
    LabelsOneLine();
    var a := "Reroll for giveaway " + jumpUrl;
    var b := "New winner: " + Mention(u);
    var c := "Prize: " + prize;
    ConcatLacks("Reroll for giveaway ", jumpUrl, '\n');
    ConcatLacks("New winner: ", Mention(u), '\n');
    ConcatLacks("Prize: ", prize, '\n');
    assert [a, b, c][1..] == [b, c];
    assert Join([b, c], "\n") == b + "\n" + c;
    assert Join([a, b, c], "\n") == RerollReply(jumpUrl, u, prize);
    SplitOfJoin([a, b, c], '\n');
  }

  // ---------------------------------------------------------------------
  // Join toggle
  // ---------------------------------------------------------------------

  /** The join button: a participant leaves, anyone else joins. */
  function Toggle(participants: set<UserId>, u: UserId): (r: set<UserId>)
    ensures u in r <==> u !in participants
    ensures forall v :: v != u ==> (v in r <==> v in participants)
  {
    if u in participants then participants - {u} else participants + {u}
  }

  /** Pressing join twice leaves the participants as they were. */
  lemma ToggleTwice(participants: set<UserId>, u: UserId)
    ensures Toggle(Toggle(participants, u), u) == participants
  {
  }

  /** The participants after a sequence of presses, in order. */
  function ToggleAll(participants: set<UserId>, presses: seq<UserId>): set<UserId>
    decreases |presses|
  {
    if presses == [] then participants else ToggleAll(Toggle(participants, presses[0]), presses[1..])
  }

  function Count(presses: seq<UserId>, v: UserId): nat
  {
    if presses == [] then 0 else (if presses[0] == v then 1 else 0) + Count(presses[1..], v)
  }

  /** A user ends up in the giveaway exactly when they started in it and pressed an even number of times, or the reverse. */
  lemma {:induction false} ToggleParity(participants: set<UserId>, presses: seq<UserId>, v: UserId)
    ensures v in ToggleAll(participants, presses) <==> ((v in participants) != (Count(presses, v) % 2 == 1))
    decreases |presses|
  {
    if presses != [] {
      ToggleParity(Toggle(participants, presses[0]), presses[1..], v);
    }
  }

  // ---------------------------------------------------------------------
  // Drawing winners
  // ---------------------------------------------------------------------

  /** `order` lists every participant exactly once, in any order (a shuffle of them). */
  predicate Enumerates(order: seq<UserId>, participants: set<UserId>)
  {
    |order| == |participants| && Distinct(order)
    && (forall i :: 0 <= i < |order| ==> order[i] in participants)
    && (forall x :: x in participants ==> x in order)
  }

  /** `list(participants)` followed by `random.shuffle`: some ordering of the participants. */
  method Shuffle(participants: set<UserId>) returns (order: seq<UserId>)
    ensures Enumerates(order, participants)
  {
    order := [];
    var rest := participants;
    while rest != {}
      invariant rest <= participants
      invariant Distinct(order)
      invariant forall i :: 0 <= i < |order| ==> order[i] in participants && order[i] !in rest
      invariant forall x :: x in participants ==> x in rest || x in order
      invariant |order| + |rest| == |participants|
      decreases rest
    {
      var x :| x in rest;
      order := order + [x];
      rest := rest - {x};
    }
  }

  /** `participants[:max(1, winners)]` of the shuffled list. */
  function Draw(order: seq<UserId>, winners: nat): (ws: seq<UserId>)
    ensures |ws| == Min(DrawCount(winners), |order|)
    ensures ws == order[..|ws|]
  {
    var k := DrawCount(winners);
    if k <= |order| then order[..k] else order
  }

  /** Winners of a giveaway with these participants and winner count: distinct participants, as many as can be drawn. */
  predicate ValidDraw(ws: seq<UserId>, participants: set<UserId>, winners: nat)
  {
    Distinct(ws) && (forall i :: 0 <= i < |ws| ==> ws[i] in participants)
    && |ws| == Min(DrawCount(winners), |participants|)
  }

  /** The first `max(1, w)` of a shuffle are a valid draw; there are none exactly when nobody took part. */
  lemma DrawValid(order: seq<UserId>, participants: set<UserId>, winners: nat)
    requires Enumerates(order, participants)
    ensures ValidDraw(Draw(order, winners), participants, winners)
    ensures Draw(order, winners) == [] <==> participants == {}
  {
    var ws := Draw(order, winners);
    forall i | 0 <= i < |ws| ensures ws[i] == order[i] {
    }
    if participants != {} {
      var x :| x in participants;
      assert x in order;
    }
  }

  /** The shuffle-and-slice of an end: winners are a valid draw, none exactly when nobody took part. */
  method DrawWinners(g: Giveaway) returns (ws: seq<UserId>)
    ensures ValidDraw(ws, g.participants, g.winners)
    ensures ws == [] <==> g.participants == {}
  {
    if g.participants == {} {
      ws := [];
    } else {
      var order := Shuffle(g.participants);
      ws := Draw(order, g.winners);
      DrawValid(order, g.participants, g.winners);
    }
  }

  // ---------------------------------------------------------------------
  // Records
  // ---------------------------------------------------------------------

  function Elements(s: seq<UserId>): set<UserId>
  {
    set i | 0 <= i < |s| :: s[i]
  }

  lemma ElementsAppend(s: seq<UserId>, x: UserId)
    ensures Elements(s + [x]) == Elements(s) + {x}
  {
    var t := s + [x];
    assert forall i :: 0 <= i < |s| ==> t[i] == s[i];
    assert t[|s|] == x;
  }

  /** Every user who won also took part. */
  predicate RecordValid(r: Record)
  {
    r.won <= r.participants
  }

  /** The record written by an end: unions with any earlier record; prize and channel from the giveaway. */
  function Merge(existing: Option<Record>, g: Giveaway, ws: seq<UserId>): Record
  {
    var base := if existing.Some? then existing.value else Record(g.prize, {}, {}, g.channel);
    Record(g.prize, base.participants + g.participants, base.won + Elements(ws), g.channel)
  }

  /**
   * Merging only adds: earlier participants and winners stay, this giveaway's
   * participants and winners join them, and a record whose winners all took
   * part stays so when the new winners took part.
   */
  lemma MergeGrows(existing: Option<Record>, g: Giveaway, ws: seq<UserId>)
    requires existing.Some? ==> RecordValid(existing.value)
    requires forall i :: 0 <= i < |ws| ==> ws[i] in g.participants
    ensures var r := Merge(existing, g, ws);
      RecordValid(r)
      && g.participants <= r.participants
      && (forall i :: 0 <= i < |ws| ==> ws[i] in r.won)
      && (existing.Some? ==> existing.value.participants <= r.participants && existing.value.won <= r.won)
      && (existing.Some? ==> r.participants == existing.value.participants + g.participants
                             && r.won == existing.value.won + Elements(ws))
      && (existing.None? ==> r.participants == g.participants && r.won == Elements(ws))
      && r.prize == g.prize && r.channel == g.channel
  {
  }

  /** The users a reroll may pick: participants who have not won yet. */
  function Pool(r: Record): set<UserId>
  {
    r.participants - r.won
  }

  /** A reroll of `u`: `u` joins the winners, nothing else changes. */
  function Rerolled(r: Record, u: UserId): Record
  {
    r.(won := r.won + {u})
  }

  /** Each reroll takes exactly its winner out of the pool. */
  lemma RerollShrinksPool(r: Record, u: UserId)
    requires u in Pool(r)
    ensures Pool(Rerolled(r, u)) == Pool(r) - {u}
    ensures |Pool(Rerolled(r, u))| == |Pool(r)| - 1
    ensures RecordValid(r) ==> RecordValid(Rerolled(r, u))
  {
  }

  /** `picks` are the winners of successive rerolls starting from `r`. */
  predicate RerollSequence(r: Record, picks: seq<UserId>)
    decreases |picks|
  {
    picks == [] || (picks[0] in Pool(r) && RerollSequence(Rerolled(r, picks[0]), picks[1..]))
  }

  /**
   * Successive rerolls never return the same user twice nor anyone who had
   * already won, always return a participant, and stop once the pool is used up.
   */
  lemma {:induction false} RerollsDistinct(r: Record, picks: seq<UserId>)
    requires RerollSequence(r, picks)
    ensures Distinct(picks)
    ensures forall i :: 0 <= i < |picks| ==> picks[i] in Pool(r)
    ensures |picks| <= |Pool(r)|
    decreases |picks|
  {
    if picks != [] {
      var r' := Rerolled(r, picks[0]);
      RerollsDistinct(r', picks[1..]);
      RerollShrinksPool(r, picks[0]);
      forall i | 0 < i < |picks| ensures picks[i] in Pool(r) && picks[i] != picks[0] {
        assert picks[i] == picks[1..][i - 1];
      }
    }
  }

  // ---------------------------------------------------------------------
  // The start command's arguments
  // ---------------------------------------------------------------------

  /** `str.isdigit()` on ASCII. */
  predicate IsNumber(w: string) { w != [] && AllDigits(w) }

  /** The prize and winner count from the text after the duration: a trailing number is the count. */
  function SplitPrize(rest: string): (string, nat)
  {
    var parts := Words(Strip(rest));
    if |parts| > 0 && IsNumber(parts[|parts| - 1]) then
      (Strip(Join(parts[..|parts| - 1], " ")), DigitsValue(parts[|parts| - 1]))
    else
      (Strip(Join(parts, " ")), 1)
  }

  /** The prize a start command reads is one line, so the texts that show it read back. */
  lemma PrizeOneLine(rest: string)
    ensures Lacks(SplitPrize(rest).0, '\n')
  {
    var parts := Words(Strip(rest));
    WordsFromNoSpace(Strip(rest), []);
    forall k | 0 <= k < |parts| ensures Lacks(parts[k], '\n') {
      assert NoSpace(parts[k]);
    }
    if |parts| > 0 && IsNumber(parts[|parts| - 1]) {
      var front := parts[..|parts| - 1];
      forall k | 0 <= k < |front| ensures Lacks(front[k], '\n') {
        assert front[k] == parts[k];
      }
      JoinLacks(front, " ", '\n');
      StripLacks(Join(front, " "), '\n');
    } else {
      JoinLacks(parts, " ", '\n');
      StripLacks(Join(parts, " "), '\n');
    }
  }

  datatype StartOutcome = Usage | InvalidDuration | Started(prize: string, winners: nat, seconds: nat)

  /** The checks of the start command, in its order: missing arguments, empty prize, bad duration. */
  function StartCommand(duration: string, rest: string): (r: StartOutcome)
    ensures r.Started? ==> r.prize != [] && r.seconds > 0 && Duration.Parse(duration) == Some(r.seconds)
    ensures r == InvalidDuration ==> Duration.Parse(duration) == None
    ensures r == Usage <==> duration == [] || rest == [] || SplitPrize(rest).0 == []
    ensures duration != [] && rest != [] && SplitPrize(rest).0 != [] ==>
      (r == InvalidDuration <==> Duration.Parse(duration) == None)
    ensures r.Started? ==> (r.prize, r.winners) == SplitPrize(rest)
  {
    if duration == [] || rest == [] then Usage
    else
      var (prize, winners) := SplitPrize(rest);
      if prize == [] then Usage
      else match Duration.Parse(duration)
        case None => InvalidDuration
        case Some(seconds) =>
          Duration.ParseAccepted(duration);
          Started(prize, winners, seconds)
  }

  /**
   * The checks of `gwstart` as the command runs them, with the duration read
   * by the character loop. `StartCommand` states the outcome as a function,
   * which lemmas and the store's contracts can use; this method is the loop
   * version, proved to give the same outcome.
   */
  method CheckStart(duration: string, rest: string) returns (r: StartOutcome)
    ensures r == StartCommand(duration, rest)
  {
    if duration == [] || rest == [] {
      return Usage;
    }
    var (prize, winners) := SplitPrize(rest);
    if prize == [] {
      return Usage;
    }
    var seconds := Duration.ParseDuration(duration);
    if seconds.None? {
      return InvalidDuration;
    }
    r := Started(prize, winners, seconds.value);
  }

  /** Words joined by single spaces are already stripped. */
  lemma JoinedWordsStripped(ws: seq<string>)
    requires forall k :: 0 <= k < |ws| ==> ws[k] != [] && NoSpace(ws[k])
    ensures Strip(Join(ws, " ")) == Join(ws, " ")
  {
    if |ws| > 0 {
      JoinEnds(ws, " ");
      var r := Join(ws, " ");
      assert r[0] == ws[0][0] && !IsSpace(ws[0][0]);
      assert !IsSpace(ws[|ws| - 1][|ws[|ws| - 1]| - 1]);
      StripIdentity(r);
    }
  }

  /** "<prize words> <n>": the prize is the words, the winner count is `n`. */
  lemma SplitPrizeWithCount(ws: seq<string>, n: nat)
    requires forall k :: 0 <= k < |ws| ==> ws[k] != [] && NoSpace(ws[k])
    ensures SplitPrize(Join(ws + [NatToString(n)], " ")) == (Join(ws, " "), n)
  {
    var all := ws + [NatToString(n)];
    var digits := NatToString(n);
    assert forall i :: 0 <= i < |digits| ==> !IsSpace(digits[i]);
    assert forall k :: 0 <= k < |all| ==> all[k] != [] && NoSpace(all[k]);
    JoinedWordsStripped(all);
    WordsOfJoin(all);
    assert all[..|all| - 1] == ws;
    JoinedWordsStripped(ws);
  }

  /** Prize words whose last word is not a number: all of them are the prize and one winner is drawn. */
  lemma SplitPrizeWithoutCount(ws: seq<string>)
    requires forall k :: 0 <= k < |ws| ==> ws[k] != [] && NoSpace(ws[k])
    requires |ws| > 0 ==> !IsNumber(ws[|ws| - 1])
    ensures SplitPrize(Join(ws, " ")) == (Join(ws, " "), 1)
  {
    JoinedWordsStripped(ws);
    WordsOfJoin(ws);
  }

  /** A lone number is taken as the count and leaves no prize, so the command shows its usage. */
  lemma CountWithoutPrize(duration: string, n: nat)
    requires duration != []
    ensures StartCommand(duration, NatToString(n)) == Usage
  {
    SplitPrizeWithCount([], n);
    assert [] + [NatToString(n)] == [NatToString(n)];
  }

  // ---------------------------------------------------------------------
  // The running card
  // ---------------------------------------------------------------------

  /** The running card reads back line by line: prize, winner label, time left, participant count. */
  lemma DescriptionReadsBack(prize: string, endsIn: string, participants: nat, winners: nat)
    requires Lacks(prize, '\n') && Lacks(endsIn, '\n')
    ensures SplitOn(BuildDescription(prize, endsIn, participants, winners), '\n')
         == DescriptionLines(prize, endsIn, participants, winners)
  {
    var lines := DescriptionLines(prize, endsIn, participants, winners);
    var tag := WinnersLabel(winners);
    var count := NatToString(participants);
    LabelsOneLine();
    WinnersLabelOneLine(winners);
    ConcatLacks("Prize: ", prize, '\n');
    ConcatLacks("\U{1F3C6} ", tag, '\n');
    ConcatLacks("\U{23F3} Ends in: ", endsIn, '\n');
    ConcatLacks("\U{1F465} Participants: ", count, '\n');
    var l0, l1, l2, l3 := "Prize: " + prize, "\U{1F3C6} " + tag, "\U{23F3} Ends in: " + endsIn, "\U{1F465} Participants: " + count;
    assert lines == [l0, l1, l2, l3, "", "Press Join to participate."];
    assert Lacks(l0, '\n') && Lacks(l1, '\n') && Lacks(l2, '\n') && Lacks(l3, '\n');
    forall k | 0 <= k < |lines| ensures Lacks(lines[k], '\n') {
      if k == 4 {
        assert lines[k] == [];
      }
    }
    SplitOfJoin(lines, '\n');
  }

  // ---------------------------------------------------------------------
  // A whole giveaway
  // ---------------------------------------------------------------------

  /** "gwstart 1h2m Gift Card 2" starts a 3720-second giveaway for "Gift Card" with two winners. */
  lemma GiftCardStart()
    ensures StartCommand("1h2m", "Gift Card 2") == Started("Gift Card", 2, 3720)
  {
    assert NatToString(2) == "2";
    SplitPrizeWithCount(["Gift", "Card"], 2);
    GiftCardWords();
    Duration.HoursMinutesExample();
  }

  lemma GiftCardWords()
    ensures Join(["Gift", "Card"] + ["2"], " ") == "Gift Card 2"
    ensures Join(["Gift", "Card"], " ") == "Gift Card"
  {
    var three: seq<string> := ["Gift", "Card", "2"];
    assert ["Gift", "Card"] + ["2"] == three;
    assert three[1..] == ["Card", "2"] && three[1..][1..] == ["2"];
    assert Join(["Card", "2"], " ") == "Card 2";
    assert Join(["Gift", "Card"], " ") == "Gift Card";
  }

  /** Users 1, 2 and 1 press join: only user 2 is left in, and two winners drawn from them are just [2]. */
  lemma GiftCardDraw(ws: seq<UserId>)
    requires ValidDraw(ws, ToggleAll({}, [1, 2, 1]), 2)
    ensures ToggleAll({}, [1, 2, 1]) == {2}
    ensures ws == [2]
  {
    assert ToggleAll({}, [1, 2, 1]) == ToggleAll({1}, [2, 1]) == ToggleAll({1, 2}, [1]) == {2};
    assert |{2}| == 1;
  }
}
