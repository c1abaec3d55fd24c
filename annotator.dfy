/** The annotator app's statements on the shared store
    (annotate_supabase.py): claiming the next image, saving an annotation,
    releasing a user's locks. Each is a pure function from tables to tables;
    `Store.TaskStore` applies them to its fields. */
module Annotator {
  import opened Sql
  import opened Tables

  /** The WHERE clause of `get_next_image`: nobody has annotated the image
      yet, and its annotator lock is NULL or has lapsed. */
  predicate Claimable(row: InputRow, annotated: seq<AnnotatedRow>, now: Minutes)
  {
    row.image !in AnnotatedImages(annotated) && LeaseOpen(row.lockedBy, row.lockTime, now)
  }

  function ClaimableAt(annotated: seq<AnnotatedRow>, now: Minutes): InputRow -> bool
  {
    (r: InputRow) => Claimable(r, annotated, now)
  }

  /** `WHERE locked_by = u` */
  function HeldBy(u: UserId): InputRow -> bool
  {
    (r: InputRow) => r.lockedBy == Some(u)
  }

  /** `SET locked_by = u, lock_time = NOW()` */
  function LockFor(u: UserId, now: Minutes): InputRow -> InputRow
  {
    (r: InputRow) => r.(lockedBy := Some(u), lockTime := Some(now))
  }

  /** `SET locked_by = NULL, lock_time = NULL` */
  function Unlocked(r: InputRow): InputRow
  {
    r.(lockedBy := None, lockTime := None)
  }

  /** What `get_next_image` returns: the image and what the annotator is
      shown with it. */
  datatype ImageItem = ImageItem(image: ImageId, tweetText: string, llmReasoning: string)

  function ItemOf(r: InputRow): ImageItem
  {
    ImageItem(r.image, r.tweetText, r.llmReasoning)
  }

  /** The selection of `get_next_image`: the position of a claimable row
      whose image comes first in name order, or None exactly when no row is
      claimable. */
  function NextImage(rows: seq<InputRow>, annotated: seq<AnnotatedRow>, now: Minutes): (k: Option<nat>)
    ensures k.Some? ==> k.value < |rows| && Claimable(rows[k.value], annotated, now)
    ensures k.Some? ==> forall i :: 0 <= i < |rows| && Claimable(rows[i], annotated, now) ==>
      rows[k.value].image <= rows[i].image
    ensures k.None? <==> forall i :: 0 <= i < |rows| ==> !Claimable(rows[i], annotated, now)
  {
    LeastWhere(rows, ClaimableAt(annotated, now), InputKey)
  }

  /** The lock `get_next_image` stamps on the image it selected: every row
      of `img` is held by `u` from `now`, and every other row is untouched. */
  function Claim(rows: seq<InputRow>, img: ImageId, u: UserId, now: Minutes): (r: seq<InputRow>)
    ensures |r| == |rows|
    ensures forall i :: 0 <= i < |rows| && rows[i].image == img ==>
      r[i] == rows[i].(lockedBy := Some(u), lockTime := Some(now))
    ensures forall i :: 0 <= i < |rows| && rows[i].image != img ==> r[i] == rows[i]
  {
    UpdateWhere(rows, InputOnImage(img), LockFor(u, now))
  }

  /** The lock release of `save_annotation`: the rows of `img` lose their
      lock whoever held it, and every other row is untouched. */
  function Unlock(rows: seq<InputRow>, img: ImageId): (r: seq<InputRow>)
    ensures |r| == |rows|
    ensures forall i :: 0 <= i < |rows| && rows[i].image == img ==>
      r[i] == rows[i].(lockedBy := None, lockTime := None)
    ensures forall i :: 0 <= i < |rows| && rows[i].image != img ==> r[i] == rows[i]
  {
    UpdateWhere(rows, InputOnImage(img), Unlocked)
  }

  /** `release_locks(u)`: the rows `u` holds lose their lock, and every
      other row is untouched. */
  function ReleaseLocks(rows: seq<InputRow>, u: UserId): (r: seq<InputRow>)
    ensures |r| == |rows|
    ensures forall i :: 0 <= i < |rows| && rows[i].lockedBy == Some(u) ==>
      r[i] == rows[i].(lockedBy := None, lockTime := None)
    ensures forall i :: 0 <= i < |rows| && rows[i].lockedBy != Some(u) ==> r[i] == rows[i]
  {
    UpdateWhere(rows, HeldBy(u), Unlocked)
  }

  /** `WHERE user_id = u AND image_name = img` on `annotated` */
  function IsPair(u: UserId, img: ImageId): AnnotatedRow -> bool
  {
    (r: AnnotatedRow) => r.user == u && r.image == img
  }

  /** The row `save_annotation` inserts; its reviewer lock starts NULL. */
  function NewAnnotation(u: UserId, img: ImageId, evidence: int, reasoning: int, naturalness: int,
                         acceptStatus: int, comment: string): AnnotatedRow
  {
    AnnotatedRow(u, img, evidence, reasoning, naturalness, acceptStatus, comment, None, None)
  }

  /** The table changes of `save_annotation` on `annotated`: the DELETE of
      the same user's rows for the image, then the INSERT. */
  function Upsert(annotated: seq<AnnotatedRow>, row: AnnotatedRow): (r: seq<AnnotatedRow>)
    ensures row in r
    ensures forall x :: x in r ==> x == row || (x in annotated && !(x.user == row.user && x.image == row.image))
    ensures |r| <= |annotated| + 1
  {
    DeleteWhere(annotated, IsPair(row.user, row.image)) + [row]
  }

  /** The comment the form holds at submission: the typed text when the
      annotator rejects the reasoning, reset to empty when they accept it. */
  function SessionComment(acceptStatus: int, typed: string): (c: string)
    ensures acceptStatus == 0 ==> c == typed
    ensures acceptStatus == 1 ==> c == ""
  {
    if acceptStatus == 0 then typed else ""
  }

  /** A claimed image stays out of every claim, by any user, for the whole
      lease, and becomes claimable again only once the lease has strictly
      lapsed and nobody has annotated it. */
  lemma ClaimHoldsLease(rows: seq<InputRow>, annotated: seq<AnnotatedRow>, img: ImageId, u: UserId,
                        t: Minutes, now: Minutes)
    ensures var claimed := Claim(rows, img, u, t);
      forall i :: 0 <= i < |rows| && rows[i].image == img ==>
        (Claimable(claimed[i], annotated, now) <==>
         img !in AnnotatedImages(annotated) && now > t + LEASE_MINUTES)
  {
  }

  /** While the lease runs, no claim selects the claimed image. */
  lemma ClaimIsExclusive(rows: seq<InputRow>, annotated: seq<AnnotatedRow>, img: ImageId, u: UserId,
                         t: Minutes, now: Minutes)
    requires now <= t + LEASE_MINUTES
    ensures var claimed := Claim(rows, img, u, t);
      var k := NextImage(claimed, annotated, now);
      k.Some? ==> claimed[k.value].image != img
  {
    var claimed := Claim(rows, img, u, t);
    var k := NextImage(claimed, annotated, now);
    if k.Some? && claimed[k.value].image == img {
      ClaimHoldsLease(rows, annotated, img, u, t, now);
      assert false;
    }
  }

  /** Once the lease has lapsed, an unannotated claimed image is claimable
      again even though its holder never released it: the next claim
      returns it or an image before it. */
  lemma ClaimLapses(rows: seq<InputRow>, annotated: seq<AnnotatedRow>, img: ImageId, u: UserId,
                    t: Minutes, now: Minutes)
    requires img in InputImages(rows)
    requires img !in AnnotatedImages(annotated)
    requires now > t + LEASE_MINUTES
    ensures var claimed := Claim(rows, img, u, t);
      var k := NextImage(claimed, annotated, now);
      k.Some? && claimed[k.value].image <= img
  {
    var claimed := Claim(rows, img, u, t);
    var r :| r in rows && r.image == img;
    var i :| 0 <= i < |rows| && rows[i] == r;
    ClaimHoldsLease(rows, annotated, img, u, t, now);
    assert Claimable(claimed[i], annotated, now);
  }

  /** After `release_locks(u)` nobody's lock is `u`'s, every other lock is as
      it was, and each row keeps its image and payload. */
  lemma ReleaseLocksExact(rows: seq<InputRow>, u: UserId)
    ensures var released := ReleaseLocks(rows, u);
      |released| == |rows| &&
      (forall i :: 0 <= i < |rows| ==> released[i].lockedBy != Some(u)) &&
      (forall i :: 0 <= i < |rows| && rows[i].lockedBy != Some(u) ==> released[i] == rows[i]) &&
      (forall i :: 0 <= i < |rows| && rows[i].lockedBy == Some(u) ==>
         released[i] == rows[i].(lockedBy := None, lockTime := None))
  {
  }

  /** Calling `release_locks(u)` twice is calling it once. */
  lemma ReleaseLocksIdempotent(rows: seq<InputRow>, u: UserId)
    ensures ReleaseLocks(ReleaseLocks(rows, u), u) == ReleaseLocks(rows, u)
  {
    UpdateIdempotent(rows, HeldBy(u), Unlocked);
  }

  /** An image whose lock `release_locks(u)` cleared is claimable at once,
      unless somebody has annotated it. */
  lemma ReleasedImagesClaimable(rows: seq<InputRow>, annotated: seq<AnnotatedRow>, u: UserId, now: Minutes)
    ensures var released := ReleaseLocks(rows, u);
      forall i :: 0 <= i < |rows| && rows[i].lockedBy == Some(u) && rows[i].image !in AnnotatedImages(annotated) ==>
        Claimable(released[i], annotated, now)
  {
  }

  /** After `save_annotation` the user has exactly one row for the image,
      the new one; the rows of every other user or image keep their
      multiplicities. */
  lemma UpsertLeavesOneRow(annotated: seq<AnnotatedRow>, row: AnnotatedRow)
    ensures var saved := Upsert(annotated, row);
      CountWhere(saved, IsPair(row.user, row.image)) == 1 &&
      (forall x :: x in saved && x.user == row.user && x.image == row.image ==> x == row) &&
      (forall x: AnnotatedRow :: !(x.user == row.user && x.image == row.image) ==> multiset(saved)[x] == multiset(annotated)[x])
  {
    var pair := IsPair(row.user, row.image);
    var kept := DeleteWhere(annotated, pair);
    CountAppend(kept, row, pair);
    assert CountWhere(kept, pair) == 0 by {
      forall i | 0 <= i < |kept| ensures !pair(kept[i]) {
        assert kept[i] in kept;
      }
    }
    var saved := Upsert(annotated, row);
    forall x: AnnotatedRow | !(x.user == row.user && x.image == row.image)
      ensures multiset(saved)[x] == multiset(annotated)[x]
    {
      assert multiset(saved) == multiset(kept) + multiset{row};
    }
  }

  /** Submitting twice for the same user and image leaves what the second
      submission alone would have left. */
  lemma {:induction false} ResubmitReplaces(annotated: seq<AnnotatedRow>, first: AnnotatedRow, second: AnnotatedRow)
    requires first.user == second.user && first.image == second.image
    ensures Upsert(Upsert(annotated, first), second) == Upsert(annotated, second)
  {
    var pair := IsPair(second.user, second.image);
    var kept := DeleteWhere(annotated, pair);
    DeleteConcat(kept, [first], pair);
    DeleteIdempotent(annotated, pair);
    assert DeleteWhere([first], pair) == [];
  }

  /** An image with a saved annotation is never selected by a claim, at any
      time and for any user. */
  lemma SavedImageNeverClaimed(rows: seq<InputRow>, annotated: seq<AnnotatedRow>, row: AnnotatedRow, now: Minutes)
    ensures var k := NextImage(rows, Upsert(annotated, row), now);
      k.Some? ==> rows[k.value].image != row.image
  {
    assert row in Upsert(annotated, row);
  }
}
