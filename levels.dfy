/**
 * The message-count levelling system: level `L` needs `25·L·(L+1)` messages
 * in total, so the step from `L` to `L + 1` costs `50·(L + 1)` messages.
 * Users are kept in a table that the message hook and the admin commands change.
 */
module Levels {
  import opened Wrappers

  import opened Ids

  /** `cumulative_msgs_for_level`: the total messages that reach `level`. */
  function Cumulative(level: int): int
  {
    25 * level * (level + 1)
  }

  /** `msgs_needed_for_next`: the messages between `level` and the next one. */
  function NeededForNext(level: int): int
  {
    50 * (level + 1)
  }

  /** Each step costs exactly what `NeededForNext` says. */
  lemma CumulativeStep(level: int)
    ensures Cumulative(level + 1) - Cumulative(level) == NeededForNext(level)
  {
    assert 25 * (level + 1) * (level + 2) == 25 * level * (level + 1) + 50 * (level + 1);
  }

  /** The steps from level 0 to `level`, added up one by one. */
  function SumNeeded(level: nat): int
  {
    if level == 0 then 0 else SumNeeded(level - 1) + NeededForNext(level - 1)
  }

  /** The closed form is the sum of the steps. */
  lemma {:induction false} CumulativeIsSum(level: nat)
    ensures Cumulative(level) == SumNeeded(level)
  {
    if level > 0 {
      CumulativeIsSum(level - 1);
      CumulativeStep(level - 1);
    }
  }

  /** From level -1 on, more levels always need more messages. */
  lemma {:induction false} CumulativeMonotone(a: int, b: int)
    requires -1 <= a <= b
    ensures Cumulative(a) <= Cumulative(b)
    decreases b - a
  {
    if a < b {
      CumulativeMonotone(a, b - 1);
      CumulativeStep(b - 1);
    }
  }

  /** The total never falls below the level itself, whatever its sign. */
  lemma CumulativeAtLeastLevel(level: int)
    ensures Cumulative(level) >= level
    ensures Cumulative(level) >= 0
  {
    if level >= 0 {
      assert level * (level + 1) >= level;
      assert 25 * (level * (level + 1)) >= level * (level + 1);
    } else {
      assert level * (level + 1) >= 0;
      assert 25 * (level * (level + 1)) >= 0;
    }
  }

  /** A user's count sits between its level's total and the next one's. */
  predicate InBracket(level: int, msgs: int)
  {
    0 <= level && Cumulative(level) <= msgs < Cumulative(level + 1)
  }

  /** Every message count has exactly one level it belongs to. */
  lemma BracketUnique(a: int, b: int, msgs: int)
    requires InBracket(a, msgs) && InBracket(b, msgs)
    ensures a == b
  {
    if a < b {
      CumulativeMonotone(a + 1, b);
    } else if b < a {
      CumulativeMonotone(b + 1, a);
    }
  }

  /**
   * The promotion loop: climbs from `level` while `msgs` reaches the next
   * total; every level climbed was earned, and the next one is not.
   */
  method Promote(level: int, msgs: int) returns (newLevel: int)
    ensures level <= newLevel
    ensures msgs < Cumulative(newLevel + 1)
    ensures forall l :: level < l <= newLevel ==> Cumulative(l) <= msgs
  {
    newLevel := level;
    while msgs >= Cumulative(newLevel + 1)
      invariant level <= newLevel
      invariant forall l :: level < l <= newLevel ==> Cumulative(l) <= msgs
      decreases msgs - newLevel
    {
      CumulativeAtLeastLevel(newLevel + 1);
      newLevel := newLevel + 1;
    }
  }

  /** A count that had reached its level lands in the bracket of the promoted level. */
  lemma PromoteLandsInBracket(level: int, msgs: int, newLevel: int)
    requires 0 <= level && Cumulative(level) <= msgs
    requires level <= newLevel && msgs < Cumulative(newLevel + 1)
    requires forall l :: level < l <= newLevel ==> Cumulative(l) <= msgs
    ensures InBracket(newLevel, msgs)
    ensures 0 <= msgs - Cumulative(newLevel) < NeededForNext(newLevel)
  {
    CumulativeStep(newLevel);
  }

  /** A user's entry: total messages counted and current level. */
  datatype Stats = Stats(msgs: int, level: int)

  /** The entry a user without one starts with. */
  const Fresh := Stats(0, 0)

  function StatsOf(users: map<UserId, Stats>, uid: UserId): (s: Stats)
    ensures uid in users ==> s == users[uid]
    ensures uid !in users ==> s == Fresh
  {
    match Get(users, uid)
    case Some(s) => s
    case None => Fresh
  }

  /** What a message reports: levels gained, level, progress into it, its step size, total messages. */
  datatype LevelReport = LevelReport(leveled: int, level: int, progress: int, next: int, msgs: int)

  class LevelStore {
    var users: map<UserId, Stats>

    /** Every user's count lies in its level's bracket. */
    ghost predicate Valid()
      reads this
    {
      forall uid :: uid in users ==> InBracket(users[uid].level, users[uid].msgs)
    }

    constructor ()
      ensures Valid() && users == map[]
    {
      users := map[];
    }

    /** `get_user_stats`: the user's entry, created empty when missing. */
    method GetUserStats(uid: UserId) returns (s: Stats)
      modifies this
      ensures s == StatsOf(old(users), uid)
      ensures users == old(users)[uid := s]
      ensures old(Valid()) ==> Valid()
    {
      if uid !in users {
        users := users[uid := Fresh];
      }
      s := users[uid];
    }

    /**
     * `add_message_and_check_levelup`: counts one message and promotes the
     * user through every level the new count reaches.
     */
    method AddMessage(uid: UserId) returns (r: LevelReport)
      modifies this
      ensures var s := StatsOf(old(users), uid);
        r.msgs == s.msgs + 1
        && s.level <= r.level && r.leveled == r.level - s.level
        && r.msgs < Cumulative(r.level + 1)
        && (forall l :: s.level < l <= r.level ==> Cumulative(l) <= r.msgs)
        && r.progress == r.msgs - Cumulative(r.level)
        && r.next == NeededForNext(r.level)
        && users == old(users)[uid := Stats(r.msgs, r.level)]
      ensures old(Valid()) ==> Valid() && 0 <= r.progress < r.next
    {
      var s := GetUserStats(uid);
      var msgs := s.msgs + 1;
      var level := Promote(s.level, msgs);
      users := users[uid := Stats(msgs, level)];
      r := LevelReport(level - s.level, level, msgs - Cumulative(level), NeededForNext(level), msgs);
      if old(Valid()) {
        if uid in old(users) {
          assert InBracket(s.level, s.msgs);
        }
        PromoteLandsInBracket(s.level, msgs, level);
      }
    }

    /** `set_level`: the level, clamped at 0, with exactly the messages it takes. */
    method SetLevel(uid: UserId, level: int)
      modifies this
      ensures var l := if level < 0 then 0 else level;
        users == old(users)[uid := Stats(Cumulative(l), l)]
      ensures old(Valid()) ==> Valid()
    {
      var _ := GetUserStats(uid);
      var l := if 0 > level then 0 else level;
      users := users[uid := Stats(Cumulative(l), l)];
      CumulativeStep(l);
    }

    /** `set_all_zero`: every known user back to level 0 with no messages. */
    method SetAllZero()
      modifies this
      ensures users.Keys == old(users).Keys
      ensures forall uid :: uid in users ==> users[uid] == Fresh
      ensures Valid()
    {
      var pending := users.Keys;
      while pending != {}
        invariant pending <= users.Keys
        invariant users.Keys == old(users).Keys
        invariant forall uid :: uid in users && uid !in pending ==> users[uid] == Fresh
        decreases pending
      {
        var uid :| uid in pending;
        users := users[uid := Fresh];
        pending := pending - {uid};
      }
    }
  }
}
