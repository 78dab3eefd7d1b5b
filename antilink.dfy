/**
 * The link filter's settings: a switch and a whitelist of users whose
 * links are let through, kept without duplicates by the admin commands.
 */
module Antilink {
  import opened Ids

  /** `list.remove`: the sequence without its first `x`. */
  function RemoveFirst(s: seq<UserId>, x: UserId): (r: seq<UserId>)
    ensures x in s ==> |r| == |s| - 1
    ensures x !in s ==> r == s
    ensures forall y :: y != x ==> (y in r <==> y in s)
  {
    if s == [] then []
    else if s[0] == x then s[1..]
    else [s[0]] + RemoveFirst(s[1..], x)
  }

  /** From a list without duplicates, removing `x` removes it entirely and keeps the rest in order. */
  lemma {:induction false} RemoveFirstNoDuplicates(s: seq<UserId>, x: UserId)
    requires Distinct(s)
    ensures x !in RemoveFirst(s, x)
    ensures Distinct(RemoveFirst(s, x))
  {
    if s != [] && s[0] != x {
      assert Distinct(s[1..]) by {
        forall i, j | 0 <= i < j < |s[1..]| ensures s[1..][i] != s[1..][j] {
          assert s[1..][i] == s[i + 1] && s[1..][j] == s[j + 1];
        }
      }
      RemoveFirstNoDuplicates(s[1..], x);
      var r := RemoveFirst(s[1..], x);
      assert s[0] !in r by {
        forall k | 0 <= k < |s[1..]| ensures s[1..][k] != s[0] {
          assert s[1..][k] == s[k + 1];
        }
      }
      forall i, j | 0 <= i < j < |[s[0]] + r| ensures ([s[0]] + r)[i] != ([s[0]] + r)[j] {
        if i == 0 {
          assert ([s[0]] + r)[j] == r[j - 1];
        } else {
          assert ([s[0]] + r)[i] == r[i - 1] && ([s[0]] + r)[j] == r[j - 1];
        }
      }
    }
  }

  /** Appending a user already listed changes nothing; otherwise `x` goes at the end. */
  function WithAdded(s: seq<UserId>, x: UserId): (r: seq<UserId>)
    ensures x in r
    ensures forall y :: y != x ==> (y in r <==> y in s)
    ensures Distinct(s) ==> Distinct(r)
  {
    if x in s then s else s + [x]
  }

  /** Adding a user not yet listed and removing them again gives the list back. */
  lemma AddThenRemove(s: seq<UserId>, x: UserId)
    requires x !in s
    ensures RemoveFirst(WithAdded(s, x), x) == s
  {
    AppendRemove(s, x);
  }

  lemma {:induction false} AppendRemove(s: seq<UserId>, x: UserId)
    requires x !in s
    ensures RemoveFirst(s + [x], x) == s
  {
    if s != [] {
      assert (s + [x])[1..] == s[1..] + [x];
      AppendRemove(s[1..], x);
    }
  }

  /** `antilink_allowed` against a given whitelist: moderators and whitelisted users may post links. */
  predicate Lets(whitelist: seq<UserId>, isModerator: bool, uid: UserId)
  {
    isModerator || uid in whitelist
  }

  /**
   * What the whitelist commands do to the filter: an added user may post
   * links, a removed one may not unless a moderator, and nobody else's
   * standing changes.
   */
  lemma WhitelistEditsFilter(s: seq<UserId>, x: UserId, isModerator: bool, y: UserId)
    requires Distinct(s)
    ensures Lets(WithAdded(s, x), isModerator, x)
    ensures Lets(RemoveFirst(s, x), isModerator, x) <==> isModerator
    ensures y != x ==> (Lets(WithAdded(s, x), isModerator, y) <==> Lets(s, isModerator, y))
    ensures y != x ==> (Lets(RemoveFirst(s, x), isModerator, y) <==> Lets(s, isModerator, y))
  {
    RemoveFirstNoDuplicates(s, x);
  }

  class AntilinkConfig {
    var enabled: bool
    var whitelist: seq<UserId>

    ghost predicate Valid()
      reads this
    {
      Distinct(whitelist)
    }

    /** `_antilink_default`: off, nobody whitelisted. */
    constructor ()
      ensures Valid()
      ensures !enabled && whitelist == []
    {
      enabled := false;
      whitelist := [];
    }

    /** `antilink on`. */
    method On()
      modifies this
      ensures enabled && whitelist == old(whitelist)
    {
      enabled := true;
    }

    /** `antilink off`. */
    method Off()
      modifies this
      ensures !enabled && whitelist == old(whitelist)
    {
      enabled := false;
    }

    /** `antilink_allowed` against the current whitelist. */
    predicate Allowed(isModerator: bool, uid: UserId)
      reads this
    {
      Lets(whitelist, isModerator, uid)
    }

    /** A message is deleted exactly when the filter is on, its author may not post links, and it has one. */
    predicate Blocks(isModerator: bool, uid: UserId, hasLink: bool)
      reads this
    {
      enabled && !Allowed(isModerator, uid) && hasLink
    }

    /** `antilink whitelist add`: appends the user unless listed already. */
    method WhitelistAdd(uid: UserId)
      modifies this
      ensures whitelist == WithAdded(old(whitelist), uid)
      ensures enabled == old(enabled)
      ensures old(Valid()) ==> Valid()
      ensures forall m, l :: !Blocks(m, uid, l)
      ensures forall m, u, l :: u != uid ==> (Blocks(m, u, l) <==> old(Blocks(m, u, l)))
    {
      if uid !in whitelist {
        whitelist := whitelist + [uid];
      }
    }

    /** `antilink whitelist remove`: takes the user out when listed and says whether they were. */
    method WhitelistRemove(uid: UserId) returns (removed: bool)
      modifies this
      ensures removed <==> uid in old(whitelist)
      ensures whitelist == RemoveFirst(old(whitelist), uid)
      ensures enabled == old(enabled)
      ensures old(Valid()) ==> Valid() && uid !in whitelist
      ensures old(Valid()) ==> forall m, l :: Blocks(m, uid, l) <==> enabled && l && !m
      ensures forall m, u, l :: u != uid ==> (Blocks(m, u, l) <==> old(Blocks(m, u, l)))
    {
      removed := uid in whitelist;
      if removed {
        var i := 0;
        while whitelist[i] != uid
          invariant 0 <= i < |whitelist|
          invariant uid !in whitelist[..i]
          invariant uid in whitelist[i..]
          decreases |whitelist| - i
        {
          assert whitelist[i..] == [whitelist[i]] + whitelist[i + 1..];
          i := i + 1;
        }
        RemoveFirstAt(whitelist, uid, i);
        whitelist := whitelist[..i] + whitelist[i + 1..];
      }
      if old(Valid()) {
        RemoveFirstNoDuplicates(old(whitelist), uid);
      }
    }
  }

  /**
   * The filter rule in full: a message is deleted exactly when the filter is
   * on, it has a link, and its author neither moderates nor is whitelisted.
   */
  lemma FilterRule(c: AntilinkConfig, isModerator: bool, uid: UserId, hasLink: bool)
    ensures c.Allowed(isModerator, uid) <==> isModerator || uid in c.whitelist
    ensures c.Blocks(isModerator, uid, hasLink) <==> c.enabled && hasLink && !isModerator && uid !in c.whitelist
    ensures !c.enabled || !hasLink ==> !c.Blocks(isModerator, uid, hasLink)
  {
  }

  /** Removing cuts out exactly the first occurrence. */
  lemma {:induction false} RemoveFirstAt(s: seq<UserId>, x: UserId, i: nat)
    requires i < |s| && s[i] == x && x !in s[..i]
    ensures RemoveFirst(s, x) == s[..i] + s[i + 1..]
  {
    if i > 0 {
      assert s[1..][..i - 1] == s[1..i];
      assert s[..i] == [s[0]] + s[1..i];
      RemoveFirstAt(s[1..], x, i - 1);
      assert s[1..][i..] == s[i + 1..];
    }
  }
}
