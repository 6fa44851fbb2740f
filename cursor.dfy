/** The instruction cursor: how it moves forward over inert bytes and how
    the site of a just-consumed instruction is found again. */
module Cursor {
  import opened Bytes

  /** The program is finished when the cursor rests on the LAST byte, so that
      byte is never dispatched. An empty source has no such position. */
  predicate Finished(src: seq<byte>, cur: nat)
    requires |src| > 0
  {
    cur == |src| - 1
  }

  /** The first position at or after `c` that holds a recognised instruction
      or is the last byte of the source. */
  function SkipInert(src: seq<byte>, c: nat): (r: nat)
    requires c < |src|
    ensures c <= r < |src|
    ensures Legal(src[r]) || r == |src| - 1
    ensures forall k :: c <= k < r ==> !Legal(src[k])
    decreases |src| - c
  {
    if Legal(src[c]) || c == |src| - 1 then c else SkipInert(src, c + 1)
  }

  /** What one advance of the cursor hands out, and where the cursor ends. */
  datatype Fetched = Fetched(inst: byte, next: nat)

  /** One advance from `cur`: at the end it hands out Nul and stays put;
      otherwise it hands out the byte under the cursor (legal or not) and
      moves strictly forward, over inert bytes only, to the next stop. */
  function Advance(src: seq<byte>, cur: nat): (r: Fetched)
    requires cur < |src|
    ensures Finished(src, cur) ==> r == Fetched(Nul, cur)
    ensures !Finished(src, cur) ==>
      && r.inst == src[cur]
      && cur < r.next < |src|
      && (Legal(src[r.next]) || Finished(src, r.next))
      && forall k :: cur < k < r.next ==> !Legal(src[k])
  {
    if cur == |src| - 1 then Fetched(Nul, cur)
    else Fetched(src[cur], SkipInert(src, cur + 1))
  }

  /** The cursor moves exactly when the program is not finished. */
  lemma AdvanceMovesUnlessFinished(src: seq<byte>, cur: nat)
    requires cur < |src|
    ensures Advance(src, cur).next == cur <==> Finished(src, cur)
    ensures Advance(src, cur).next <= |src| - 1
  {
  }

  /** The nearest recognised instruction strictly before position `c`. */
  function LastLegalBefore(src: seq<byte>, c: nat): (r: nat)
    requires c <= |src|
    requires exists k :: 0 <= k < c && Legal(src[k])
    ensures r < c && Legal(src[r])
    ensures forall k :: r < k < c ==> !Legal(src[k])
    decreases c
  {
    if Legal(src[c - 1]) then c - 1 else LastLegalBefore(src, c - 1)
  }

  /** Scanning back from where an advance stopped finds the instruction the
      advance consumed: the inert bytes it skipped are skipped again. */
  lemma {:induction false} ScanBackFindsConsumed(src: seq<byte>, cur: nat)
    requires cur < |src| && !Finished(src, cur) && Legal(src[cur])
    ensures cur < Advance(src, cur).next
    ensures LastLegalBefore(src, Advance(src, cur).next) == cur
  {
    var n := Advance(src, cur).next;
    assert exists k :: 0 <= k < n && Legal(src[k]) by {
      assert Legal(src[cur]);
    }
  }
}
