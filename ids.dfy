/** The Discord ids the bot keys its tables by, and the duplicate-free lists it keeps. */
module Ids {
  /** User, message and channel ids are natural numbers. */
  type UserId = nat
  type MessageId = nat
  type ChannelId = nat

  /** No element occurs twice. */
  predicate Distinct<T(==)>(s: seq<T>)
  {
    forall i, j :: 0 <= i < j < |s| ==> s[i] != s[j]
  }
}
