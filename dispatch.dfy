/**
 * What the worker's `onmessage` handler does with one message from the page:
 * the messages it posts back and the merge of a location update into the
 * document's location object.
 */
module Dispatch {
  import opened Messages

  /** The parameters of the document's location object, by name. */
  type Location = map<string, Json>

  /**
   * Merge a location update into the document's location object. Only the
   * parameters the object already has are written; other keys of the update
   * are dropped. Nothing changes when there is no location object, or when
   * the update is not a JSON object (reading its items then raises inside
   * the runtime, and the handler does not wait for that).
   */
  function MergeLocation(location: Option<Location>, update: Json): (merged: Option<Location>)
    ensures merged.Some? <==> location.Some?
    ensures location.Some? ==> merged.value.Keys == location.value.Keys
    ensures location.Some? ==> forall k :: k in location.value ==>
      merged.value[k] == (if update.JObject? && k in update.fields then update.fields[k] else location.value[k])
  {
    match location
    case None => None
    case Some(fields) =>
      if update.JObject? then
        Some(fields + map k | k in update.fields && k in fields :: update.fields[k])
      else
        location
  }

  /**
   * What is known of the location object after the runtime refused part of an
   * update: it has the same parameters, and each holds either its old value or
   * the value the update gave it.
   */
  ghost predicate PartlyMerged(before: Option<Location>, update: Json, after: Option<Location>)
  {
    && (after.Some? <==> before.Some?)
    && (before.Some? ==>
          && after.value.Keys == before.value.Keys
          && forall k :: k in before.value ==>
               after.value[k] == before.value[k]
               || (update.JObject? && k in update.fields && after.value[k] == update.fields[k]))
  }

  /**
   * Both outcomes of a location update leave the object partly merged: the
   * full merge and no change at all.
   */
  lemma PartlyMergedBounds(location: Option<Location>, update: Json)
    ensures PartlyMerged(location, update, MergeLocation(location, update))
    ensures PartlyMerged(location, update, location)
  {
  }

  /** An update that names no parameter of the location object leaves it as it was. */
  lemma MergeUnrecognisedKeys(location: Location, update: map<string, Json>)
    requires update.Keys !! location.Keys
    ensures MergeLocation(Some(location), JObject(update)) == Some(location)
  {
    var merged := MergeLocation(Some(location), JObject(update)).value;
    assert merged.Keys == location.Keys;
    assert forall k :: k in merged ==> merged[k] == location[k];
    assert merged == location;
  }

  /** Merging the same update twice is the same as merging it once. */
  lemma MergeIdempotent(location: Option<Location>, update: Json)
    ensures MergeLocation(MergeLocation(location, update), update) == MergeLocation(location, update)
  {
    if location.Some? {
      var once := MergeLocation(location, update).value;
      var twice := MergeLocation(Some(once), update).value;
      assert twice.Keys == once.Keys;
      assert forall k :: k in twice ==> twice[k] == once[k];
      assert twice == once;
    }
  }

  /**
   * What the handler posts for one message: one `idle` for a patch, nothing
   * otherwise. When the runtime was never loaded, the handler fails on its
   * first use of it and posts nothing.
   */
  function Reply(hasRuntime: bool, msg: Inbound): seq<Outbound>
  {
    if hasRuntime && msg.PatchIn? then [Idle] else []
  }

  /** What the handler posts for a stream of messages, in order. */
  function Replies(hasRuntime: bool, msgs: seq<Inbound>): seq<Outbound>
    decreases |msgs|
  {
    if |msgs| == 0 then [] else Replies(hasRuntime, msgs[..|msgs| - 1]) + Reply(hasRuntime, msgs[|msgs| - 1])
  }

  /** The number of patches among `msgs`. */
  function PatchCount(msgs: seq<Inbound>): nat
    decreases |msgs|
  {
    if |msgs| == 0 then 0 else PatchCount(msgs[..|msgs| - 1]) + (if msgs[|msgs| - 1].PatchIn? then 1 else 0)
  }

  /**
   * With the runtime loaded, the handler posts exactly as many messages as it
   * received patches, and every one of them is `idle`; without it, nothing.
   */
  lemma {:induction false} IdlePerPatch(hasRuntime: bool, msgs: seq<Inbound>)
    ensures |Replies(hasRuntime, msgs)| == if hasRuntime then PatchCount(msgs) else 0
    ensures forall i :: 0 <= i < |Replies(hasRuntime, msgs)| ==> Replies(hasRuntime, msgs)[i] == Idle
    decreases |msgs|
  {
    if |msgs| > 0 {
      IdlePerPatch(hasRuntime, msgs[..|msgs| - 1]);
    }
  }

  /** One event on the worker's side of the boundary: a message received or a message posted. */
  datatype Event = Received(inbound: Inbound) | Posted(outbound: Outbound)

  /** Messages posted, as events. */
  function AsPosted(out: seq<Outbound>): seq<Event>
  {
    seq(|out|, i requires 0 <= i < |out| => Posted(out[i]))
  }

  /** The worker's side of the conversation: each message received, followed by what the handler posts for it. */
  function Conversation(hasRuntime: bool, msgs: seq<Inbound>): seq<Event>
    decreases |msgs|
  {
    if |msgs| == 0 then []
    else
      var last := msgs[|msgs| - 1];
      Conversation(hasRuntime, msgs[..|msgs| - 1]) + [Received(last)] + AsPosted(Reply(hasRuntime, last))
  }

  /**
   * Every posted message is an `idle` directly after a received patch, and
   * every received patch is directly followed by a posted `idle`.
   */
  ghost predicate IdlesPairedWithPatches(c: seq<Event>)
  {
    forall i {:trigger c[i]} :: 0 <= i < |c| ==>
      && (c[i].Posted? ==> c[i].outbound == Idle && i > 0 && c[i - 1].Received? && c[i - 1].inbound.PatchIn?)
      && (c[i].Received? && c[i].inbound.PatchIn? ==> i + 1 < |c| && c[i + 1] == Posted(Idle))
  }

  /**
   * With the runtime loaded, every `idle` comes directly after the patch it
   * acknowledges and every patch is directly followed by its `idle`; the
   * handler posts nothing else.
   */
  lemma {:induction false} IdleFollowsItsPatch(msgs: seq<Inbound>)
    ensures IdlesPairedWithPatches(Conversation(true, msgs))
    decreases |msgs|
  {
    if |msgs| > 0 {
      var front := Conversation(true, msgs[..|msgs| - 1]);
      var c := Conversation(true, msgs);
      IdleFollowsItsPatch(msgs[..|msgs| - 1]);
      var last := msgs[|msgs| - 1];
      assert AsPosted(Reply(true, last)) == if last.PatchIn? then [Posted(Idle)] else [];
      assert forall i :: 0 <= i < |front| ==> c[i] == front[i];
      assert c[|front|] == Received(msgs[|msgs| - 1]);
      forall i | 0 <= i < |c|
        ensures c[i].Posted? ==> c[i].outbound == Idle && i > 0 && c[i - 1].Received? && c[i - 1].inbound.PatchIn?
        ensures c[i].Received? && c[i].inbound.PatchIn? ==> i + 1 < |c| && c[i + 1] == Posted(Idle)
      {
        if i < |front| {
          assert c[i] == front[i];
          assert IdlesPairedWithPatches(front);
          if c[i].Posted? {
            assert front[i].Posted? && i > 0;
            assert c[i - 1] == front[i - 1];
          }
          if c[i].Received? && c[i].inbound.PatchIn? { assert c[i + 1] == front[i + 1]; }
        }
      }
    }
  }
}
