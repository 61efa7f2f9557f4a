/**
 * The posting side of the platform, seen through `create_tweet`: every call
 * adds one post to the account's timeline and returns the new post's id.
 */
module Twitter {

  datatype Option<T> = None | Some(value: T)

  /** A created post: its id, its text and the post it replies to, if any. */
  datatype Post = Post(id: nat, text: string, inReplyTo: Option<nat>)

  class Client {
    /** Every post created so far, oldest first. */
    var log: seq<Post>
    /** The id the platform gives to the next post. */
    var nextId: nat

    /** Ids are issued in increasing order, so each is fresh. */
    ghost predicate Valid()
      reads this
    {
      && (forall i :: 0 <= i < |log| ==> log[i].id < nextId)
      && (forall i, j :: 0 <= i < j < |log| ==> log[i].id < log[j].id)
    }

    constructor ()
      ensures Valid() && log == []
    {
      log := [];
      nextId := 0;
    }

    /** `create_tweet(text=..., in_reply_to_tweet_id=...)`. */
    method CreateTweet(text: string, inReplyTo: Option<nat>) returns (id: nat)
      requires Valid()
      modifies this
      ensures Valid()
      ensures id == old(nextId) && nextId == old(nextId) + 1
      ensures log == old(log) + [Post(id, text, inReplyTo)]
    {
      id := nextId;
      log := log + [Post(id, text, inReplyTo)];
      nextId := nextId + 1;
    }
  }
}
