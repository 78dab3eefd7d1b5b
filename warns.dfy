/**
 * Moderation warnings: a list of warnings per user, each with an id; a
 * warning is added to the warned user's list and removed by its id.
 */
module Warns {
  import opened Wrappers

  import opened Ids

  datatype Warn = Warn(id: string, moderator: UserId, reason: string, date: string)

  datatype WarnOutcome = BotTarget | SelfTarget | Warned(warn: Warn)

  datatype RemoveOutcome = Usage | NotFound | Removed

  predicate HasId(ws: seq<Warn>, id: string)
  {
    exists i :: 0 <= i < |ws| && ws[i].id == id
  }

  /** A list holds `id` when its head or its tail does. */
  lemma HasIdCons(ws: seq<Warn>, id: string)
    requires ws != []
    ensures HasId(ws, id) <==> ws[0].id == id || HasId(ws[1..], id)
  {
    if HasId(ws, id) && ws[0].id != id {
      var i :| 0 <= i < |ws| && ws[i].id == id;
      assert ws[1..][i - 1] == ws[i];
    }
    if HasId(ws[1..], id) {
      var i :| 0 <= i < |ws[1..]| && ws[1..][i].id == id;
      assert ws[i + 1] == ws[1..][i];
    }
  }

  /** `list.remove` of the first warning carrying `id`; the list as it was when none does. */
  function RemoveFirst(ws: seq<Warn>, id: string): (r: seq<Warn>)
    ensures HasId(ws, id) ==> |r| == |ws| - 1
    ensures !HasId(ws, id) ==> r == ws
  {
    if ws == [] then []
    else
      HasIdCons(ws, id);
      if ws[0].id == id then ws[1..] else [ws[0]] + RemoveFirst(ws[1..], id)
  }

  /** Removing cuts out exactly the first warning with `id`: the others keep their order. */
  lemma {:induction false} RemoveFirstAt(ws: seq<Warn>, id: string, i: nat)
    requires i < |ws| && ws[i].id == id
    requires forall j :: 0 <= j < i ==> ws[j].id != id
    ensures RemoveFirst(ws, id) == ws[..i] + ws[i + 1..]
  {
    if i > 0 {
      var t := ws[1..];
      forall j | 0 <= j < i - 1 ensures t[j].id != id {
        assert t[j] == ws[j + 1];
      }
      RemoveFirstAt(t, id, i - 1);
      assert t[..i - 1] + t[i..] == ws[1..i] + ws[i + 1..];
      assert ws[..i] == [ws[0]] + ws[1..i];
    }
  }

  /** What removal takes out is one warning, the rest is kept as a multiset. */
  lemma RemoveFirstMultiset(ws: seq<Warn>, id: string, i: nat)
    requires i < |ws| && ws[i].id == id
    requires forall j :: 0 <= j < i ==> ws[j].id != id
    ensures multiset(RemoveFirst(ws, id)) + multiset{ws[i]} == multiset(ws)
  {
    RemoveFirstAt(ws, id, i);
    assert ws == ws[..i] + [ws[i]] + ws[i + 1..];
  }

  /** A user's list disappears when its one warning is removed. */
  predicate Dropped(ws: seq<Warn>, id: string)
  {
    HasId(ws, id) && |ws| == 1
  }

  /** `warnremove` on the whole table: the first matching warning of every user goes, and emptied lists go with it. */
  function AfterRemoval(warns: map<UserId, seq<Warn>>, id: string): map<UserId, seq<Warn>>
  {
    map u | u in warns && !Dropped(warns[u], id) :: RemoveFirst(warns[u], id)
  }

  /** Somebody's list holds a warning with `id`. */
  predicate Known(warns: map<UserId, seq<Warn>>, id: string)
  {
    exists u :: u in warns && HasId(warns[u], id)
  }

  /** Every list in the table is non-empty. */
  predicate NoEmptyLists(warns: map<UserId, seq<Warn>>)
  {
    forall u :: u in warns ==> warns[u] != []
  }

  /** The table after `w` is appended to `user`'s list. */
  function Added(warns: map<UserId, seq<Warn>>, user: UserId, w: Warn): map<UserId, seq<Warn>>
  {
    warns[user := (if user in warns then warns[user] else []) + [w]]
  }

  /** Removal keeps every list non-empty. */
  lemma RemovalKeepsLists(warns: map<UserId, seq<Warn>>, id: string)
    requires NoEmptyLists(warns)
    ensures NoEmptyLists(AfterRemoval(warns, id))
  {
  }

  /** Removing the id of a warning just appended to a list without it gives the list back. */
  lemma RemoveAppended(ws: seq<Warn>, w: Warn)
    requires !HasId(ws, w.id)
    ensures HasId(ws + [w], w.id)
    ensures RemoveFirst(ws + [w], w.id) == ws
  {
    var t := ws + [w];
    assert t[|ws|] == w;
    forall j | 0 <= j < |ws| ensures t[j].id != w.id {
      assert t[j] == ws[j];
    }
    RemoveFirstAt(t, w.id, |ws|);
    assert t[..|ws|] == ws;
  }

  /** Removing a warning whose id was fresh when it was added restores the table. */
  lemma AddThenRemove(warns: map<UserId, seq<Warn>>, user: UserId, w: Warn)
    requires NoEmptyLists(warns)
    requires !Known(warns, w.id)
    ensures AfterRemoval(Added(warns, user, w), w.id) == warns
    ensures Known(Added(warns, user, w), w.id)
  {
    var added := Added(warns, user, w);
    var ws := if user in warns then warns[user] else [];
    RemoveAppended(ws, w);
    assert added[user] == ws + [w];
    var after := AfterRemoval(added, w.id);
    forall u | u in added
      ensures (u in after <==> u in warns) && (u in after ==> after[u] == warns[u])
    {
      if u != user {
        assert added[u] == warns[u];
        assert !HasId(warns[u], w.id);
      }
    }
    assert after.Keys == warns.Keys;
  }

  class WarnStore {
    var warns: map<UserId, seq<Warn>>

    ghost predicate Valid()
      reads this
    {
      NoEmptyLists(warns)
    }

    constructor ()
      ensures Valid() && warns == map[]
    {
      warns := map[];
    }

    /**
     * `warn`: refuses bots and self-warnings; otherwise appends a warning with
     * the drawn id and the clock's date to the user's list, "Unspecified"
     * when no reason is given.
     */
    method AddWarn(user: UserId, isBot: bool, moderator: UserId, reason: Option<string>, warnId: string, date: string)
      returns (r: WarnOutcome)
      modifies this
      ensures isBot ==> r == BotTarget && warns == old(warns)
      ensures !isBot && user == moderator ==> r == SelfTarget && warns == old(warns)
      ensures !isBot && user != moderator ==>
        r == Warned(Warn(warnId, moderator, if reason.Some? then reason.value else "Unspecified", date))
        && warns == Added(old(warns), user, r.warn)
      ensures old(Valid()) ==> Valid()
    {
      if isBot {
        return BotTarget;
      }
      if user == moderator {
        return SelfTarget;
      }
      var text := if reason.None? then "Unspecified" else reason.value;
      var w := Warn(warnId, moderator, text, date);
      if user !in warns {
        warns := warns[user := []];
      }
      warns := warns[user := warns[user] + [w]];
      r := Warned(w);
    }

    /** The position of the first warning with `id` in a list, or -1. */
    static method FindWarn(ws: seq<Warn>, id: string) returns (i: int)
      ensures -1 <= i < |ws|
      ensures i == -1 <==> !HasId(ws, id)
      ensures i >= 0 ==> ws[i].id == id && forall j :: 0 <= j < i ==> ws[j].id != id
    {
      i := 0;
      while i < |ws|
        invariant 0 <= i <= |ws|
        invariant forall j :: 0 <= j < i ==> ws[j].id != id
      {
        if ws[i].id == id {
          return;
        }
        i := i + 1;
      }
      i := -1;
    }

    /**
     * `warnremove`: with no id, the usage; otherwise goes through every
     * user, takes out the first warning with that id and drops a list it empties.
     */
    method WarnRemove(id: string) returns (r: RemoveOutcome)
      modifies this
      ensures id == [] ==> r == Usage && warns == old(warns)
      ensures id != [] ==> warns == AfterRemoval(old(warns), id)
      ensures id != [] ==> (r == Removed <==> Known(old(warns), id)) && (r == NotFound <==> !Known(old(warns), id))
      ensures old(Valid()) ==> Valid()
    {
      if id == [] {
        return Usage;
      }
      ghost var before := warns;
      var found := false;
      var pending := warns.Keys;
      while pending != {}
        invariant pending <= before.Keys
        invariant forall u :: u in pending ==> u in warns && warns[u] == before[u]
        invariant forall u :: u in warns ==> u in before
        invariant forall u :: u in before && u !in pending ==>
          (u in warns <==> !Dropped(before[u], id)) && (u in warns ==> warns[u] == RemoveFirst(before[u], id))
        invariant found <==> exists u :: u in before && u !in pending && HasId(before[u], id)
        decreases pending
      {
        var u :| u in pending;
        pending := pending - {u};
        var ws := warns[u];
        var i := FindWarn(ws, id);
        if i >= 0 {
          RemoveFirstAt(ws, id, i);
          var rest := ws[..i] + ws[i + 1..];
          found := true;
          if rest == [] {
            warns := warns - {u};
          } else {
            warns := warns[u := rest];
          }
        }
      }
      assert warns == AfterRemoval(before, id);
      r := if found then Removed else NotFound;
      if old(Valid()) {
        RemovalKeepsLists(before, id);
      }
    }
  }
}
