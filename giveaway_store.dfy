/**
 * The bot's two giveaway tables — `giveaways` (running, by message id) and
 * `gw_records` (finished, by message id) — and the commands and the
 * periodic sweep that change them.
 */
module GiveawayStore {
  import opened Wrappers
  import opened Text
  import opened Ids
  import opened GiveawayCore
  import Duration
  import TimeFormat

  datatype JoinOutcome = Inactive | Joined | Left

  datatype EndOutcome =
    | NotRunning
    | DisplayLost
    | Ended(winners: seq<UserId>, view: View, announcement: string)

  datatype RerollOutcome = NoRecord | NoEligible | NewWinner(user: UserId, reply: string)

  /**
   * What ending giveaway `g` does to its record: when its message can be
   * reached, a valid draw is announced and merged into the record; when it
   * cannot, the giveaway is gone and nothing is written.
   */
  predicate Concluded(g: Giveaway, reachable: bool, before: Option<Record>, r: EndOutcome, after: Option<Record>)
  {
    if reachable then
      r.Ended? && ValidDraw(r.winners, g.participants, g.winners)
      && after == Some(Merge(before, g, r.winners))
      && r.view == EndedView(g, r.winners)
      && r.announcement == Announcement(g.prize, r.winners)
    else
      r == DisplayLost && after == before
  }

  /** Writing one entry of a table leaves every other entry as it was. */
  lemma OnlyEntryChanged<V>(before: map<MessageId, V>, after: map<MessageId, V>, id: MessageId)
    requires id in after && after == before[id := after[id]]
    ensures forall k :: k != id ==> Get(after, k) == Get(before, k)
  {
  }

  /**
   * The records after ending `ids` from tables `G`, `R`: each ended id that
   * was running concluded, each one that was not reported `NotRunning`, and
   * every other record untouched.
   */
  ghost predicate EndedFrom(G: map<MessageId, Giveaway>, R: map<MessageId, Record>, records: map<MessageId, Record>,
                      ended: map<MessageId, EndOutcome>, ids: set<MessageId>, reachable: set<MessageId>)
  {
    ended.Keys == ids
    && (forall id :: id in ended && id in G ==>
          Concluded(G[id], id in reachable, Get(R, id), ended[id], Get(records, id)))
    && (forall id :: id in ended && id !in G ==> ended[id] == NotRunning)
    && (forall id :: id !in ids || id !in G ==> Get(records, id) == Get(R, id))
  }

  /** Ending one more id extends the ended set by that one. */
  lemma EndStep(G: map<MessageId, Giveaway>, R: map<MessageId, Record>, mid: map<MessageId, Record>,
                after: map<MessageId, Record>, ended: map<MessageId, EndOutcome>, ids: set<MessageId>,
                id: MessageId, r: EndOutcome, reachable: set<MessageId>)
    requires EndedFrom(G, R, mid, ended, ids, reachable)
    requires id !in ids
    requires id in G ==> Concluded(G[id], id in reachable, Get(mid, id), r, Get(after, id))
    requires id !in G ==> r == NotRunning && Get(after, id) == Get(mid, id)
    requires forall k :: k != id ==> Get(after, k) == Get(mid, k)
    ensures EndedFrom(G, R, after, ended[id := r], ids + {id}, reachable)
  {
    var ended2, ids2 := ended[id := r], ids + {id};
    assert Get(mid, id) == Get(R, id);
    forall k | k in ended2 && k in G
      ensures Concluded(G[k], k in reachable, Get(R, k), ended2[k], Get(after, k))
    {
      if k != id {
        assert ended2[k] == ended[k];
        assert Get(after, k) == Get(mid, k);
      }
    }
    forall k | k in ended2 && k !in G
      ensures ended2[k] == NotRunning
    {
      if k != id {
        assert ended2[k] == ended[k];
      }
    }
    forall k | k !in ids2 || k !in G
      ensures Get(after, k) == Get(R, k)
    {
      if k != id {
        assert Get(after, k) == Get(mid, k);
      }
    }
  }

  class Store {
    var giveaways: map<MessageId, Giveaway>
    var records: map<MessageId, Record>

    /** Every recorded winner took part in that giveaway. */
    ghost predicate Valid()
      reads this
    {
      forall id :: id in records ==> RecordValid(records[id])
    }

    constructor ()
      ensures Valid()
      ensures giveaways == map[] && records == map[]
    {
      giveaways := map[];
      records := map[];
    }

    /**
     * `gwstart`: on a well-formed command the giveaway posted as `msgId`
     * runs until `now` plus the duration, with no participants yet.
     */
    method Start(msgId: MessageId, channel: ChannelId, duration: string, rest: string, now: int)
      returns (r: StartOutcome, view: Option<View>)
      modifies this
      ensures r == StartCommand(duration, rest)
      ensures r.Started? ==>
        giveaways == old(giveaways)[msgId := Giveaway(now + r.seconds, r.prize, r.winners, {}, channel)]
        && view == Some(StartCard(r.prize, r.winners, r.seconds))
      ensures !r.Started? ==> giveaways == old(giveaways) && view == None
      ensures records == old(records)
    {
      r := CheckStart(duration, rest);
      view := None;
      if r.Started? {
        var g := Giveaway(now + r.seconds, r.prize, r.winners, {}, channel);
        giveaways := giveaways[msgId := g];
        view := Some(StartCard(r.prize, r.winners, r.seconds));
      }
    }

    /**
     * The join button: toggles the presser in a running giveaway and
     * redraws its card; on any other message it changes nothing.
     */
    method Join(id: MessageId, user: UserId, now: int) returns (r: JoinOutcome, view: Option<View>)
      modifies this
      ensures id !in old(giveaways) ==> r == Inactive && view == None && giveaways == old(giveaways)
      ensures id in old(giveaways) ==>
        var g := old(giveaways)[id];
        var g' := g.(participants := Toggle(g.participants, user));
        giveaways == old(giveaways)[id := g']
        && (r == Left <==> user in g.participants)
        && (r == Joined <==> user !in g.participants)
        && view == Some(RunningView(g', now))
      ensures records == old(records)
    {
      if id !in giveaways {
        return Inactive, None;
      }
      var g := giveaways[id];
      var participants := g.participants;
      if user in participants {
        participants := participants - {user};
        r := Left;
      } else {
        participants := participants + {user};
        r := Joined;
      }
      var g' := g.(participants := participants);
      giveaways := giveaways[id := g'];
      view := Some(RunningView(g', now));
    }

    /**
     * `end_giveaway`: takes the giveaway out of the running table; when its
     * message can be reached, draws the winners and merges them into its record.
     */
    method EndGiveaway(id: MessageId, reachable: bool) returns (r: EndOutcome)
      requires Valid()
      modifies this
      ensures Valid()
      ensures giveaways == old(giveaways) - {id}
      ensures id !in old(giveaways) ==> r == NotRunning && records == old(records)
      ensures id in old(giveaways) ==>
        Concluded(old(giveaways)[id], reachable, Get(old(records), id), r, Get(records, id))
      ensures forall k :: k != id ==> Get(records, k) == Get(old(records), k)
    {
      if id !in giveaways {
        return NotRunning;
      }
      var g := giveaways[id];
      giveaways := giveaways - {id};
      if !reachable {
        return DisplayLost;
      }
      var ws := DrawWinners(g);
      var before := Get(records, id);
      MergeGrows(before, g, ws);
      records := records[id := Merge(before, g, ws)];
      r := Ended(ws, EndedView(g, ws), Announcement(g.prize, ws));
      OnlyEntryChanged(old(records), records, id);
    }

    /**
     * `gwend`: ends the giveaway the command replies to; it is acknowledged
     * exactly when that message is a running giveaway.
     */
    method EndCommand(id: MessageId, reachable: bool) returns (acknowledged: bool, r: EndOutcome)
      requires Valid()
      modifies this
      ensures Valid()
      ensures acknowledged <==> id in old(giveaways)
      ensures acknowledged ==>
        giveaways == old(giveaways) - {id}
        && Concluded(old(giveaways)[id], reachable, Get(old(records), id), r, Get(records, id))
      ensures !acknowledged ==> r == NotRunning && giveaways == old(giveaways) && records == old(records)
      ensures forall k :: k != id ==> Get(records, k) == Get(old(records), k)
    {
      if id !in giveaways {
        return false, NotRunning;
      }
      r := EndGiveaway(id, reachable);
      acknowledged := true;
    }

    /**
     * `gwreroll`: picks one more winner from the participants who have not
     * won yet and records them; with no record or nobody left it changes nothing.
     */
    method Reroll(id: MessageId, jumpUrl: string) returns (r: RerollOutcome)
      requires Valid()
      modifies this
      ensures Valid()
      ensures id !in old(records) ==> r == NoRecord && records == old(records)
      ensures id in old(records) && Pool(old(records)[id]) == {} ==> r == NoEligible && records == old(records)
      ensures id in old(records) && Pool(old(records)[id]) != {} ==>
        var rec := old(records)[id];
        r.NewWinner? && r.user in Pool(rec)
        && records == old(records)[id := Rerolled(rec, r.user)]
        && r.reply == RerollReply(jumpUrl, r.user, rec.prize)
      ensures giveaways == old(giveaways)
    {
      if id !in records {
        return NoRecord;
      }
      var rec := records[id];
      var pool := rec.participants - rec.won;
      if pool == {} {
        return NoEligible;
      }
      var u :| u in pool;
      RerollShrinksPool(rec, u);
      records := records[id := Rerolled(rec, u)];
      r := NewWinner(u, RerollReply(jumpUrl, u, rec.prize));
    }

    /**
     * The first pass of the updater: the ids whose deadline has come, each
     * once, and the redrawn card of every other giveaway whose message can
     * be reached.
     */
    method Partition(now: int, reachable: set<MessageId>)
      returns (toEnd: seq<MessageId>, refreshed: map<MessageId, View>)
      ensures Distinct(toEnd)
      ensures forall i :: 0 <= i < |toEnd| ==> toEnd[i] in giveaways && giveaways[toEnd[i]].endsAt <= now
      ensures forall id :: id in giveaways && giveaways[id].endsAt <= now ==> id in toEnd
      ensures refreshed.Keys == set id | id in giveaways && giveaways[id].endsAt > now && id in reachable
      ensures forall id :: id in refreshed ==> refreshed[id] == RunningView(giveaways[id], now)
    {
      var pending := giveaways.Keys;
      toEnd := [];
      refreshed := map[];
      while pending != {}
        invariant pending <= giveaways.Keys
        invariant Distinct(toEnd)
        invariant forall i :: 0 <= i < |toEnd| ==>
          toEnd[i] in giveaways && giveaways[toEnd[i]].endsAt <= now && toEnd[i] !in pending
        invariant forall id :: id in giveaways && id !in pending && giveaways[id].endsAt <= now ==> id in toEnd
        invariant forall id :: id in refreshed <==>
          id in giveaways && id !in pending && giveaways[id].endsAt > now && id in reachable
        invariant forall id :: id in refreshed ==> refreshed[id] == RunningView(giveaways[id], now)
        decreases pending
      {
        var id :| id in pending;
        pending := pending - {id};
        var g := giveaways[id];
        if g.endsAt - now <= 0 {
          toEnd := toEnd + [id];
        } else if id in reachable {
          refreshed := refreshed[id := RunningView(g, now)];
        }
      }
    }

    /**
     * The second pass of the updater: ends each listed id in turn. An id
     * that is no longer running (another command ended it first) is
     * reported `NotRunning` and changes nothing.
     */
    method EndAll(toEnd: seq<MessageId>, reachable: set<MessageId>) returns (ended: map<MessageId, EndOutcome>)
      requires Valid()
      requires Distinct(toEnd)
      modifies this
      ensures Valid()
      ensures ended.Keys == Elements(toEnd)
      ensures giveaways.Keys == old(giveaways).Keys - ended.Keys
      ensures forall id :: id in giveaways ==> giveaways[id] == old(giveaways)[id]
      ensures forall id :: id in ended && id in old(giveaways) ==>
        Concluded(old(giveaways)[id], id in reachable, Get(old(records), id), ended[id], Get(records, id))
      ensures forall id :: id in ended && id !in old(giveaways) ==> ended[id] == NotRunning
      ensures forall id :: id !in ended || id !in old(giveaways) ==> Get(records, id) == Get(old(records), id)
    {
      ghost var done: set<MessageId> := {};
      ended := map[];
      var i := 0;
      while i < |toEnd|
        invariant 0 <= i <= |toEnd|
        invariant Valid()
        invariant done == Elements(toEnd[..i])
        invariant giveaways.Keys == old(giveaways).Keys - done
        invariant forall id :: id in giveaways ==> giveaways[id] == old(giveaways)[id]
        invariant EndedFrom(old(giveaways), old(records), records, ended, done, reachable)
      {
        var id := toEnd[i];
        assert id !in done by {
          forall j | 0 <= j < i ensures toEnd[..i][j] != id {
            assert toEnd[..i][j] == toEnd[j];
          }
        }
        ghost var before := records;
        var r := EndGiveaway(id, id in reachable);
        EndStep(old(giveaways), old(records), before, records, ended, done, id, r, reachable);
        ended := ended[id := r];
        done := done + {id};
        assert toEnd[..i + 1] == toEnd[..i] + [id];
        ElementsAppend(toEnd[..i], id);
        i := i + 1;
      }
      assert toEnd[..i] == toEnd;
    }

    /**
     * One pass of the background updater at time `now`: every giveaway whose
     * deadline has come is ended, every other one keeps running and has its
     * card redrawn when its message can be reached.
     */
    method Sweep(now: int, reachable: set<MessageId>)
      returns (ended: map<MessageId, EndOutcome>, refreshed: map<MessageId, View>)
      requires Valid()
      modifies this
      ensures Valid()
      ensures giveaways == map id | id in old(giveaways) && old(giveaways)[id].endsAt > now :: old(giveaways)[id]
      ensures ended.Keys == set id | id in old(giveaways) && old(giveaways)[id].endsAt <= now
      ensures forall id :: id in ended ==>
        Concluded(old(giveaways)[id], id in reachable, Get(old(records), id), ended[id], Get(records, id))
      ensures forall id :: id !in ended ==> Get(records, id) == Get(old(records), id)
      ensures refreshed.Keys == set id | id in old(giveaways) && old(giveaways)[id].endsAt > now && id in reachable
      ensures forall id :: id in refreshed ==> refreshed[id] == RunningView(old(giveaways)[id], now)
    {
      var toEnd;
      toEnd, refreshed := Partition(now, reachable);
      ended := EndAll(toEnd, reachable);
      assert ended.Keys == set id | id in old(giveaways) && old(giveaways)[id].endsAt <= now by {
        forall id | id in old(giveaways) && old(giveaways)[id].endsAt <= now ensures id in Elements(toEnd) {
          var j :| 0 <= j < |toEnd| && toEnd[j] == id;
        }
      }
    }
  }
}
