/** Whole runs of alloc, map and free on one pagemap, and who owns the frames after them. */
module Runs {
  import opened PageTable
  import opened TableSteps
  import opened Addresses
  import opened Entries
  import opened Batches
  import opened Releases

  /**
   What a completed call did: Fill for alloc and map, with the frames it took but let no page own,
   and Clear for free.
   */
  datatype Call = Fill(page: nat, count: nat, stray: set<nat>) | Clear(page: nat, count: nat)

  ghost predicate Step(s: Store, s': Store, root: nat, c: Call) {
    && c.page + c.count <= USER_PAGES
    && match c
       case Fill(p, n, stray) => Batch(s, s', root, p, n, stray) && stray !! s.taken
       case Clear(p, n) => Freeing(s, s', root, p, n, [])
  }

  /** The states before, between and after the calls. */
  ghost predicate Run(states: seq<Store>, calls: seq<Call>, root: nat) {
    && |states| == |calls| + 1
    && Good(states[0], root)
    && forall i :: 0 <= i < |calls| ==> Step(states[i], states[i + 1], root, calls[i])
  }

  /** The call strays no frame and does not map over a page that owns one. */
  ghost predicate Clean(s: Store, root: nat, c: Call) {
    match c
    case Clear(_, _) => true
    case Fill(p, n, stray) =>
      stray == {} && forall q: nat :: p <= q < p + n && q < USER_PAGES ==> !Claims(4, Flat(s.ram, root)[q])
  }

  /** Every successful alloc is such a step, whatever its flags. */
  lemma AllocIsStep(s: Store, s': Store, root: nat, p: nat, frames: seq<nat>, flags: set<nat>, pageFlags: set<nat>)
    requires p + |frames| <= USER_PAGES && Batch(s, s', root, p, |frames|, Stray(flags, frames))
    requires FreshPages(s, s', root, p, frames, pageFlags)
    ensures Step(s, s', root, Fill(p, |frames|, Stray(flags, frames)))
  {
    hide Batch, Flat;
  }

  lemma StepOwners(s: Store, s': Store, root: nat, c: Call)
    requires Good(s, root) && Step(s, s', root, c)
    ensures Good(s', root) && Outside(s, root) <= Outside(s', root)
    ensures Outside(s', root) == Outside(s, root) <==> Clean(s, root, c)
  {
    hide Good, Flat, Outside, Extends, SameBut, KeepsFrames, OwnedIn;
    match c
    case Fill(p, n, stray) => NothingLost(s, s', root, p, n, stray);
    case Clear(p, n) => assert Outside(s', root) == Outside(s, root);
  }

  /**
   After any run every live node still has a frame of its own. The taken frames without an owner
   are those from before the run exactly when no call strayed a frame or mapped over an owning page.
   */
  lemma {:induction false} RunOwners(states: seq<Store>, calls: seq<Call>, root: nat)
    requires Run(states, calls, root)
    ensures Good(states[|calls|], root) && Outside(states[0], root) <= Outside(states[|calls|], root)
    ensures Outside(states[|calls|], root) == Outside(states[0], root) <==>
              forall i :: 0 <= i < |calls| ==> Clean(states[i], root, calls[i])
    decreases |calls|
  {
    hide Good, Outside, Step, Clean;
    if calls != [] {
      var k := |calls| - 1;
      RunOwners(states[..k + 1], calls[..k], root);
      assert Step(states[k], states[k + 1], root, calls[k]);
      StepOwners(states[k], states[k + 1], root, calls[k]);
      var shorter := calls[..k];
      assert forall i :: 0 <= i < k ==> shorter[i] == calls[i];
    }
  }
}
