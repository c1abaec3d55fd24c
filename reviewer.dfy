/** The reviewer app's statements on the shared store
    (reviewer_supabase.py): claiming the next annotation to review,
    resolving it, releasing a reviewer's locks, and the progress counts.
    Each is a pure function of the tables; `Store.TaskStore` applies them. */
module Reviewer {
  import opened Sql
  import opened Tables

  /** The conflict-of-interest pairs written into both queries: reviewer
      `a7` never reviews contributor `a4`, and `a8` never reviews `a5`. */
  predicate Excluded(contributor: UserId, reviewer: UserId): (ex: bool)
    ensures ex ==> (reviewer == "a7" || reviewer == "a8") && (contributor == "a4" || contributor == "a5")
    ensures reviewer == "a7" ==> (ex <==> contributor == "a4")
    ensures reviewer == "a8" ==> (ex <==> contributor == "a5")
  {
    (contributor == "a4" && reviewer == "a7") || (contributor == "a5" && reviewer == "a8")
  }

  /** The part of the WHERE clause both reviewer queries share: the image has
      no review yet and the pair is not excluded. */
  predicate Pending(row: AnnotatedRow, reviewed: seq<ReviewedRow>, reviewer: UserId)
  {
    row.image !in ReviewedImages(reviewed) && !Excluded(row.user, reviewer)
  }

  /** The row filter of `get_next_review`: the inner join with `input_data`,
      the shared part, and a NULL or lapsed reviewer lock. */
  predicate Reviewable(row: AnnotatedRow, inputData: seq<InputRow>, reviewed: seq<ReviewedRow>,
                       reviewer: UserId, now: Minutes)
  {
    && row.image in InputImages(inputData)
    && Pending(row, reviewed, reviewer)
    && LeaseOpen(row.lockedByReviewer, row.lockTimeReviewer, now)
  }

  function ReviewableAt(inputData: seq<InputRow>, reviewed: seq<ReviewedRow>, reviewer: UserId,
                        now: Minutes): AnnotatedRow -> bool
  {
    (a: AnnotatedRow) => Reviewable(a, inputData, reviewed, reviewer, now)
  }

  function PendingFor(reviewed: seq<ReviewedRow>, reviewer: UserId): AnnotatedRow -> bool
  {
    (a: AnnotatedRow) => Pending(a, reviewed, reviewer)
  }

  /** `ORDER BY a.image_name` */
  function AnnotatedKey(a: AnnotatedRow): int
  {
    a.image
  }

  /** `WHERE image_name = img` on `annotated` */
  function AnnotatedOnImage(img: ImageId): AnnotatedRow -> bool
  {
    (a: AnnotatedRow) => a.image == img
  }

  /** `WHERE locked_by_reviewer = reviewer` */
  function ReviewHeldBy(reviewer: UserId): AnnotatedRow -> bool
  {
    (a: AnnotatedRow) => a.lockedByReviewer == Some(reviewer)
  }

  /** `SET locked_by_reviewer = reviewer, lock_time_reviewer = NOW()` */
  function ReviewLockFor(reviewer: UserId, now: Minutes): AnnotatedRow -> AnnotatedRow
  {
    (a: AnnotatedRow) => a.(lockedByReviewer := Some(reviewer), lockTimeReviewer := Some(now))
  }

  /** `SET locked_by_reviewer = NULL, lock_time_reviewer = NULL` */
  function ReviewUnlocked(a: AnnotatedRow): AnnotatedRow
  {
    a.(lockedByReviewer := None, lockTimeReviewer := None)
  }

  /** `WHERE reviewer_id = reviewer` on `reviewed` */
  function ReviewsBy(reviewer: UserId): ReviewedRow -> bool
  {
    (r: ReviewedRow) => r.reviewer == reviewer
  }

  /** What `get_next_review` returns: the chosen annotation with the tweet
      and reasoning of its image. */
  datatype ReviewItem = ReviewItem(
    image: ImageId,
    tweetText: string,
    llmReasoning: string,
    evidence: int,
    reasoning: int,
    naturalness: int,
    contributor: UserId,
    acceptStatus: int,
    comment: string)

  function ItemOf(a: AnnotatedRow, i: InputRow): ReviewItem
  {
    ReviewItem(a.image, i.tweetText, i.llmReasoning, a.evidence, a.reasoning, a.naturalness,
               a.user, a.acceptStatus, a.comment)
  }

  /** The selection of `get_next_review`: the position of a reviewable
      annotation whose image comes first in name order, or None exactly
      when no annotation is reviewable. */
  function NextReview(annotated: seq<AnnotatedRow>, inputData: seq<InputRow>, reviewed: seq<ReviewedRow>,
                      reviewer: UserId, now: Minutes): (k: Option<nat>)
    ensures k.Some? ==> k.value < |annotated| && Reviewable(annotated[k.value], inputData, reviewed, reviewer, now)
    ensures k.Some? ==> forall i :: 0 <= i < |annotated| && Reviewable(annotated[i], inputData, reviewed, reviewer, now) ==>
      annotated[k.value].image <= annotated[i].image
    ensures k.None? <==> forall i :: 0 <= i < |annotated| ==> !Reviewable(annotated[i], inputData, reviewed, reviewer, now)
  {
    LeastWhere(annotated, ReviewableAt(inputData, reviewed, reviewer, now), AnnotatedKey)
  }

  /** The join partner in `input_data` of an annotation of `img`: found
      exactly when `img` is an input image. */
  function InputFor(inputData: seq<InputRow>, img: ImageId): (k: Option<nat>)
    ensures k.Some? ==> k.value < |inputData| && inputData[k.value].image == img
    ensures k.None? <==> img !in InputImages(inputData)
  {
    LeastWhere(inputData, InputOnImage(img), InputKey)
  }

  /** The UPDATE of `get_next_review`, had it been committed: every
      annotation of the chosen image is held by `reviewer` from `now`, not
      only the row that was selected, and every other row is untouched. */
  function StampReview(annotated: seq<AnnotatedRow>, img: ImageId, reviewer: UserId, now: Minutes): (r: seq<AnnotatedRow>)
    ensures |r| == |annotated|
    ensures forall i :: 0 <= i < |annotated| && annotated[i].image == img ==>
      r[i] == annotated[i].(lockedByReviewer := Some(reviewer), lockTimeReviewer := Some(now))
    ensures forall i :: 0 <= i < |annotated| && annotated[i].image != img ==> r[i] == annotated[i]
  {
    UpdateWhere(annotated, AnnotatedOnImage(img), ReviewLockFor(reviewer, now))
  }

  /** `release_locks(reviewer)`: the annotations `reviewer` holds lose their
      reviewer lock, and every other row is untouched. */
  function ReleaseLocks(annotated: seq<AnnotatedRow>, reviewer: UserId): (r: seq<AnnotatedRow>)
    ensures |r| == |annotated|
    ensures forall i :: 0 <= i < |annotated| && annotated[i].lockedByReviewer == Some(reviewer) ==>
      r[i] == annotated[i].(lockedByReviewer := None, lockTimeReviewer := None)
    ensures forall i :: 0 <= i < |annotated| && annotated[i].lockedByReviewer != Some(reviewer) ==> r[i] == annotated[i]
  {
    UpdateWhere(annotated, ReviewHeldBy(reviewer), ReviewUnlocked)
  }

  /** The lock release of a submitted review: every annotation of the image
      loses its reviewer lock, whoever held it, and every other row is
      untouched. */
  function UnlockReview(annotated: seq<AnnotatedRow>, img: ImageId): (r: seq<AnnotatedRow>)
    ensures |r| == |annotated|
    ensures forall i :: 0 <= i < |annotated| && annotated[i].image == img ==>
      r[i] == annotated[i].(lockedByReviewer := None, lockTimeReviewer := None)
    ensures forall i :: 0 <= i < |annotated| && annotated[i].image != img ==> r[i] == annotated[i]
  {
    UpdateWhere(annotated, AnnotatedOnImage(img), ReviewUnlocked)
  }

  /** The rejection rule of a submitted review: the reviewer disagrees with
      an accepting annotation, or rates a rejecting annotation's revision
      below 4. */
  predicate SendsBack(acceptStatus: int, score: int): (back: bool)
    ensures acceptStatus == 1 && (score == 0 || score == 1) ==> (back <==> score == 0)
    ensures acceptStatus == 0 && 1 <= score <= 5 ==> (back <==> score <= 3)
    ensures acceptStatus != 0 && acceptStatus != 1 ==> !back
  {
    (acceptStatus == 1 && score == 0) || (acceptStatus == 0 && score < 4)
  }

  /** What a submitted review does to `annotated`: release the reviewer lock
      on the image, then delete the image's annotations if the review sends
      it back. */
  function Resolve(annotated: seq<AnnotatedRow>, img: ImageId, acceptStatus: int, score: int): (r: seq<AnnotatedRow>)
    ensures SendsBack(acceptStatus, score) ==> forall a :: a in r ==> a.image != img
    ensures !SendsBack(acceptStatus, score) ==> |r| == |annotated|
    ensures |r| <= |annotated|
  {
    var unlocked := UnlockReview(annotated, img);
    if SendsBack(acceptStatus, score) then DeleteWhere(unlocked, AnnotatedOnImage(img)) else unlocked
  }

  /** `get_reviewer_progress`: the reviews this reviewer wrote, and those
      plus the annotations still pending for them. Nothing remains exactly
      when no annotation is pending for them, and the first count is zero
      exactly when they have written no review. */
  function Progress(annotated: seq<AnnotatedRow>, reviewed: seq<ReviewedRow>, reviewer: UserId): (p: (nat, nat))
    ensures p.0 <= p.1
    ensures p.0 <= |reviewed| && p.1 - p.0 <= |annotated|
    ensures p.0 == 0 <==> forall j :: 0 <= j < |reviewed| ==> reviewed[j].reviewer != reviewer
    ensures p.1 == p.0 <==> forall i :: 0 <= i < |annotated| ==> !Pending(annotated[i], reviewed, reviewer)
  {
    var done := CountWhere(reviewed, ReviewsBy(reviewer));
    (done, done + CountWhere(annotated, PendingFor(reviewed, reviewer)))
  }

  /** An UPDATE that leaves `image_name` alone keeps the set of annotated images. */
  lemma UpdateKeepsImages(annotated: seq<AnnotatedRow>, where: AnnotatedRow -> bool, change: AnnotatedRow -> AnnotatedRow)
    requires forall a: AnnotatedRow :: change(a).image == a.image
    ensures AnnotatedImages(UpdateWhere(annotated, where, change)) == AnnotatedImages(annotated)
  {
    var updated := UpdateWhere(annotated, where, change);
    forall img | img in AnnotatedImages(annotated) ensures img in AnnotatedImages(updated) {
      var a :| a in annotated && a.image == img;
      var i :| 0 <= i < |annotated| && annotated[i] == a;
      assert updated[i] in updated;
    }
    forall img | img in AnnotatedImages(updated) ensures img in AnnotatedImages(annotated) {
      var a :| a in updated && a.image == img;
      var i :| 0 <= i < |updated| && updated[i] == a;
      assert annotated[i] in annotated;
    }
  }

  /** A reviewer never receives an annotation by a contributor excluded for
      them, even when it is the only candidate. */
  lemma ExcludedNeverOffered(annotated: seq<AnnotatedRow>, inputData: seq<InputRow>, reviewed: seq<ReviewedRow>,
                             reviewer: UserId, now: Minutes)
    ensures var k := NextReview(annotated, inputData, reviewed, reviewer, now);
      k.Some? ==> !Excluded(annotated[k.value].user, reviewer)
    ensures forall a: AnnotatedRow :: Excluded(a.user, reviewer) ==> NextReview([a], inputData, reviewed, reviewer, now).None?
  {
  }

  /** An image that has a review is never offered for review again. */
  lemma ReviewedNeverOffered(annotated: seq<AnnotatedRow>, inputData: seq<InputRow>, reviewed: seq<ReviewedRow>,
                             reviewer: UserId, now: Minutes)
    ensures var k := NextReview(annotated, inputData, reviewed, reviewer, now);
      k.Some? ==> annotated[k.value].image !in ReviewedImages(reviewed)
  {
  }

  /** With nothing stored by a claim, what `get_next_review` offers does not
      depend on who asks: any two reviewers other than `a7` and `a8` are
      offered the same annotation at the same moment. */
  lemma OfferIgnoresReviewer(annotated: seq<AnnotatedRow>, inputData: seq<InputRow>, reviewed: seq<ReviewedRow>,
                             r1: UserId, r2: UserId, now: Minutes)
    requires r1 != "a7" && r1 != "a8" && r2 != "a7" && r2 != "a8"
    ensures NextReview(annotated, inputData, reviewed, r1, now) == NextReview(annotated, inputData, reviewed, r2, now)
  {
    LeastWhereAgrees(annotated, ReviewableAt(inputData, reviewed, r1, now), ReviewableAt(inputData, reviewed, r2, now),
                     AnnotatedKey);
  }

  /** A stamped image stays out of every review claim, by any reviewer, for
      the whole lease; once the lease has lapsed, a pending annotation of it
      is offered again, or one of an image before it. */
  lemma StampHoldsReview(annotated: seq<AnnotatedRow>, inputData: seq<InputRow>, reviewed: seq<ReviewedRow>,
                         img: ImageId, holder: UserId, t: Minutes, reviewer: UserId, now: Minutes)
    ensures var stamped := StampReview(annotated, img, holder, t);
      var k := NextReview(stamped, inputData, reviewed, reviewer, now);
      now <= t + LEASE_MINUTES && k.Some? ==> stamped[k.value].image != img
    ensures var stamped := StampReview(annotated, img, holder, t);
      var k := NextReview(stamped, inputData, reviewed, reviewer, now);
      now > t + LEASE_MINUTES && img in InputImages(inputData) &&
      (exists i :: 0 <= i < |annotated| && annotated[i].image == img && Pending(annotated[i], reviewed, reviewer)) ==>
        k.Some? && stamped[k.value].image <= img
  {
    var stamped := StampReview(annotated, img, holder, t);
    if now > t + LEASE_MINUTES && img in InputImages(inputData) &&
       exists i :: 0 <= i < |annotated| && annotated[i].image == img && Pending(annotated[i], reviewed, reviewer)
    {
      var i :| 0 <= i < |annotated| && annotated[i].image == img && Pending(annotated[i], reviewed, reviewer);
      assert Reviewable(stamped[i], inputData, reviewed, reviewer, now);
    }
  }

  /** After `release_locks(reviewer)` no annotation is locked by that
      reviewer, every other reviewer lock is as it was, and nothing else
      in any row changes. */
  lemma ReleaseLocksExact(annotated: seq<AnnotatedRow>, reviewer: UserId)
    ensures var released := ReleaseLocks(annotated, reviewer);
      |released| == |annotated| &&
      (forall i :: 0 <= i < |annotated| ==> released[i].lockedByReviewer != Some(reviewer)) &&
      (forall i :: 0 <= i < |annotated| && annotated[i].lockedByReviewer != Some(reviewer) ==> released[i] == annotated[i]) &&
      (forall i :: 0 <= i < |annotated| && annotated[i].lockedByReviewer == Some(reviewer) ==>
         released[i] == annotated[i].(lockedByReviewer := None, lockTimeReviewer := None))
  {
  }

  /** Calling `release_locks(reviewer)` twice is calling it once. */
  lemma ReleaseLocksIdempotent(annotated: seq<AnnotatedRow>, reviewer: UserId)
    ensures ReleaseLocks(ReleaseLocks(annotated, reviewer), reviewer) == ReleaseLocks(annotated, reviewer)
  {
    UpdateIdempotent(annotated, ReviewHeldBy(reviewer), ReviewUnlocked);
  }

  /** A review that sends the image back deletes every annotation of it,
      whatever the lock release did, and keeps every other annotation with
      its multiplicity. */
  lemma ResolveSendsBack(annotated: seq<AnnotatedRow>, img: ImageId, acceptStatus: int, score: int)
    requires SendsBack(acceptStatus, score)
    ensures Resolve(annotated, img, acceptStatus, score) == DeleteWhere(annotated, AnnotatedOnImage(img))
    ensures img !in AnnotatedImages(Resolve(annotated, img, acceptStatus, score))
    ensures forall a: AnnotatedRow :: a.image != img ==> multiset(Resolve(annotated, img, acceptStatus, score))[a] == multiset(annotated)[a]
    ensures |Resolve(annotated, img, acceptStatus, score)| + CountWhere(annotated, AnnotatedOnImage(img)) == |annotated|
  {
    DeleteAfterUpdate(annotated, AnnotatedOnImage(img), ReviewUnlocked, AnnotatedOnImage(img));
    DeleteCount(annotated, AnnotatedOnImage(img));
  }

  /** A review that approves keeps every annotation, releasing the reviewer
      lock on those of the image, so the image stays annotated. */
  lemma ResolveApproves(annotated: seq<AnnotatedRow>, img: ImageId, acceptStatus: int, score: int)
    requires !SendsBack(acceptStatus, score)
    ensures var resolved := Resolve(annotated, img, acceptStatus, score);
      |resolved| == |annotated| &&
      (forall i :: 0 <= i < |annotated| ==>
         resolved[i] == if annotated[i].image == img then ReviewUnlocked(annotated[i]) else annotated[i]) &&
      AnnotatedImages(resolved) == AnnotatedImages(annotated)
  {
    UpdateKeepsImages(annotated, AnnotatedOnImage(img), ReviewUnlocked);
  }

  /** Whenever `get_next_review` has something to offer, the progress shows
      work remaining. */
  lemma OfferMeansRemaining(annotated: seq<AnnotatedRow>, inputData: seq<InputRow>, reviewed: seq<ReviewedRow>,
                            reviewer: UserId, now: Minutes)
    ensures NextReview(annotated, inputData, reviewed, reviewer, now).Some? ==>
      Progress(annotated, reviewed, reviewer).0 < Progress(annotated, reviewed, reviewer).1
  {
    var k := NextReview(annotated, inputData, reviewed, reviewer, now);
    if k.Some? {
      assert Pending(annotated[k.value], reviewed, reviewer);
    }
  }

  /** Appending a review raises the author's done count by one and leaves
      every other reviewer's done count as it was. */
  lemma DoneCountsAppend(reviewed: seq<ReviewedRow>, row: ReviewedRow, annotated: seq<AnnotatedRow>, reviewer: UserId)
    ensures Progress(annotated, reviewed + [row], reviewer).0 ==
      Progress(annotated, reviewed, reviewer).0 + (if row.reviewer == reviewer then 1 else 0)
  {
    CountAppend(reviewed, row, ReviewsBy(reviewer));
  }
}
