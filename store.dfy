/** The shared database both apps work on, as one object with the three
    tables as fields. Each method is one call of the apps' database
    functions, taken as a single atomic step. */
module Store {
  import opened Sql
  import opened Tables
  import Annotator
  import Reviewer
  import Workflow

  class TaskStore {
    var inputData: seq<InputRow>
    var annotated: seq<AnnotatedRow>
    var reviewed: seq<ReviewedRow>

    /** `image_name` is the key of `input_data`. */
    ghost predicate Valid()
      reads this
    {
      UniqueImages(inputData)
    }

    /** The lock invariant every operation keeps: annotated images are unlocked. */
    ghost predicate Consistent()
      reads this
    {
      AnnotatedUnleased(inputData, annotated)
    }

    /** A store loaded with the images to annotate, before any work. */
    constructor (images: seq<InputRow>)
      requires UniqueImages(images)
      ensures Valid() && Consistent()
      ensures inputData == images && annotated == [] && reviewed == []
    {
      inputData, annotated, reviewed := images, [], [];
    }

    /** `get_next_image(user)`: select the claimable image that comes first
        by name and lock it for `user` from `now`; None when nothing is
        claimable, and then nothing changes. */
    method GetNextImage(user: UserId, now: Minutes) returns (row: Option<Annotator.ImageItem>)
      requires Valid()
      modifies this
      ensures Valid() && annotated == old(annotated) && reviewed == old(reviewed)
      ensures row.None? <==> forall r :: r in old(inputData) ==> !Annotator.Claimable(r, annotated, now)
      ensures row.Some? ==>
        exists r :: r in old(inputData) && Annotator.Claimable(r, annotated, now) && row.value == Annotator.ItemOf(r)
      ensures row.Some? ==> forall r :: r in old(inputData) && Annotator.Claimable(r, annotated, now) ==>
        row.value.image <= r.image
      ensures |inputData| == |old(inputData)|
      ensures forall i :: 0 <= i < |inputData| ==>
        inputData[i] == if row.Some? && old(inputData)[i].image == row.value.image
                        then old(inputData)[i].(lockedBy := Some(user), lockTime := Some(now))
                        else old(inputData)[i]
      ensures old(Consistent()) ==> Consistent()
    {
      var k := Annotator.NextImage(inputData, annotated, now);
      if k.Some? {
        row := Some(Annotator.ItemOf(inputData[k.value]));
        assert inputData[k.value] in inputData;
        forall r | r in inputData && Annotator.Claimable(r, annotated, now) ensures row.value.image <= r.image {
          var i :| 0 <= i < |inputData| && inputData[i] == r;
        }
        if Consistent() {
          Workflow.ClaimKeepsUnleased(inputData, annotated, user, now);
        }
        inputData := Annotator.Claim(inputData, inputData[k.value].image, user, now);
      } else {
        row := None;
        forall r | r in inputData ensures !Annotator.Claimable(r, annotated, now) {
          var i :| 0 <= i < |inputData| && inputData[i] == r;
        }
      }
    }

    /** `save_annotation(...)`: replace `user`'s annotation of `image` by the
        new one, and release the lock on `image` whoever holds it. The score
        and decision domains are those of the annotator form. */
    method SaveAnnotation(user: UserId, image: ImageId, evidence: int, reasoning: int, naturalness: int,
                          acceptStatus: int, comment: string)
      requires Valid()
      requires 1 <= evidence <= 5 && 1 <= reasoning <= 5 && 1 <= naturalness <= 5
      requires acceptStatus == 0 || acceptStatus == 1
      modifies this
      ensures Valid() && reviewed == old(reviewed)
      ensures var row := Annotator.NewAnnotation(user, image, evidence, reasoning, naturalness, acceptStatus, comment);
        annotated == DeleteWhere(old(annotated), Annotator.IsPair(user, image)) + [row]
      ensures forall x :: x in annotated && x.user == user && x.image == image ==>
        x == Annotator.NewAnnotation(user, image, evidence, reasoning, naturalness, acceptStatus, comment)
      ensures |inputData| == |old(inputData)|
      ensures forall i :: 0 <= i < |inputData| ==>
        inputData[i] == if old(inputData)[i].image == image
                        then old(inputData)[i].(lockedBy := None, lockTime := None)
                        else old(inputData)[i]
      ensures forall r, t :: r in inputData ==> r.image != image || !Annotator.Claimable(r, annotated, t)
      ensures old(Consistent()) ==> Consistent()
    {
      var row := Annotator.NewAnnotation(user, image, evidence, reasoning, naturalness, acceptStatus, comment);
      if Consistent() {
        Workflow.SaveKeepsUnleased(inputData, annotated, row);
      }
      Annotator.UpsertLeavesOneRow(annotated, row);
      annotated := Annotator.Upsert(annotated, row);
      inputData := Annotator.Unlock(inputData, image);
      assert row in annotated;
    }

    /** `get_progress(user)`: every input image, and every annotation row of
        every user; `user` plays no part. */
    method GetProgress(user: UserId) returns (done: nat, total: nat)
      ensures total == |inputData|
      ensures done == |annotated|
    {
      done, total := |annotated|, |inputData|;
    }

    /** The annotator app's `release_locks(user)`: clear exactly the
        annotator locks `user` holds. */
    method ReleaseLocks(user: UserId)
      requires Valid()
      modifies this
      ensures Valid() && annotated == old(annotated) && reviewed == old(reviewed)
      ensures |inputData| == |old(inputData)|
      ensures forall i :: 0 <= i < |inputData| ==>
        inputData[i] == if old(inputData)[i].lockedBy == Some(user)
                        then old(inputData)[i].(lockedBy := None, lockTime := None)
                        else old(inputData)[i]
      ensures old(Consistent()) ==> Consistent()
    {
      if Consistent() {
        Workflow.ReleaseKeepsUnleased(inputData, annotated, user);
      }
      inputData := Annotator.ReleaseLocks(inputData, user);
    }

    /** `get_next_review(reviewer)` as written: select a reviewable
        annotation whose image comes first by name and return it with its
        image's tweet and reasoning, or None when nothing is reviewable. The
        function's UPDATE is never committed before the connection closes,
        so the lock it stamps is rolled back and no table changes. */
    method GetNextReview(reviewer: UserId, now: Minutes) returns (item: Option<Reviewer.ReviewItem>)
      ensures item.None? <==>
        forall a :: a in annotated ==> !Reviewer.Reviewable(a, inputData, reviewed, reviewer, now)
      ensures item.Some? ==>
        exists a, i :: a in annotated && i in inputData && i.image == a.image &&
          Reviewer.Reviewable(a, inputData, reviewed, reviewer, now) && item.value == Reviewer.ItemOf(a, i) &&
          forall b :: b in annotated && Reviewer.Reviewable(b, inputData, reviewed, reviewer, now) ==>
            a.image <= b.image
    {
      var k := Reviewer.NextReview(annotated, inputData, reviewed, reviewer, now);
      if k.None? {
        item := None;
        forall a | a in annotated ensures !Reviewer.Reviewable(a, inputData, reviewed, reviewer, now) {
          var i :| 0 <= i < |annotated| && annotated[i] == a;
        }
        return;
      }
      var a := annotated[k.value];
      var j := Reviewer.InputFor(inputData, a.image);
      var input := inputData[j.value];
      item := Some(Reviewer.ItemOf(a, input));
      forall b | b in annotated && Reviewer.Reviewable(b, inputData, reviewed, reviewer, now)
        ensures a.image <= b.image
      {
        var i :| 0 <= i < |annotated| && annotated[i] == b;
      }
      assert input in inputData;
    }

    /** The claim `get_next_review` evidently intends, with its UPDATE
        committed: the same selection, and every annotation of the chosen
        image locked for `reviewer` from `now`; None when nothing is
        reviewable, and then nothing changes. */
    method ClaimReview(reviewer: UserId, now: Minutes) returns (item: Option<Reviewer.ReviewItem>)
      requires Valid()
      modifies this
      ensures Valid() && inputData == old(inputData) && reviewed == old(reviewed)
      ensures item.None? <==>
        forall a :: a in old(annotated) ==> !Reviewer.Reviewable(a, inputData, reviewed, reviewer, now)
      ensures item.Some? ==>
        exists a, i :: a in old(annotated) && i in inputData && i.image == a.image &&
          Reviewer.Reviewable(a, inputData, reviewed, reviewer, now) && item.value == Reviewer.ItemOf(a, i) &&
          forall b :: b in old(annotated) && Reviewer.Reviewable(b, inputData, reviewed, reviewer, now) ==>
            a.image <= b.image
      ensures annotated == if item.Some? then Reviewer.StampReview(old(annotated), item.value.image, reviewer, now)
                           else old(annotated)
      ensures old(Consistent()) ==> Consistent()
    {
      item := GetNextReview(reviewer, now);
      if item.Some? {
        Reviewer.UpdateKeepsImages(annotated, Reviewer.AnnotatedOnImage(item.value.image),
                                   Reviewer.ReviewLockFor(reviewer, now));
        annotated := Reviewer.StampReview(annotated, item.value.image, reviewer, now);
      }
    }

    /** The reviewer app's `release_locks(reviewer)`: clear exactly the
        reviewer locks `reviewer` holds. */
    method ReleaseReviewerLocks(reviewer: UserId)
      requires Valid()
      modifies this
      ensures Valid() && inputData == old(inputData) && reviewed == old(reviewed)
      ensures |annotated| == |old(annotated)|
      ensures forall i :: 0 <= i < |annotated| ==>
        annotated[i] == if old(annotated)[i].lockedByReviewer == Some(reviewer)
                        then old(annotated)[i].(lockedByReviewer := None, lockTimeReviewer := None)
                        else old(annotated)[i]
      ensures old(Consistent()) ==> Consistent()
    {
      Reviewer.UpdateKeepsImages(annotated, Reviewer.ReviewHeldBy(reviewer), Reviewer.ReviewUnlocked);
      annotated := Reviewer.ReleaseLocks(annotated, reviewer);
    }

    /** `get_reviewer_progress(reviewer)`: the reviews `reviewer` wrote, and
        those plus the unreviewed annotations not excluded for them. */
    method GetReviewerProgress(reviewer: UserId) returns (done: nat, total: nat)
      ensures (done, total) == Reviewer.Progress(annotated, reviewed, reviewer)
      ensures done <= total
    {
      var p := Reviewer.Progress(annotated, reviewed, reviewer);
      done, total := p.0, p.1;
    }

    /** The Submit Review button: record the review, release the reviewer
        lock on the image's annotations, and delete them if the review sends
        the image back. `acceptStatus` is the annotation's decision as the
        reviewer was shown it; the score domain is the reviewer form's. */
    method SubmitReview(reviewer: UserId, image: ImageId, acceptStatus: int, score: int,
                        finalText: string, now: Minutes)
      requires Valid()
      requires acceptStatus == 1 ==> score == 0 || score == 1
      requires acceptStatus != 1 ==> 1 <= score <= 5
      modifies this
      ensures Valid() && inputData == old(inputData)
      ensures reviewed == old(reviewed) + [ReviewedRow(image, reviewer, score, finalText, now)]
      ensures Reviewer.SendsBack(acceptStatus, score) ==>
        image !in AnnotatedImages(annotated) &&
        forall a: AnnotatedRow :: a.image != image ==> multiset(annotated)[a] == multiset(old(annotated))[a]
      ensures !Reviewer.SendsBack(acceptStatus, score) ==>
        |annotated| == |old(annotated)| &&
        forall i :: 0 <= i < |annotated| ==>
          annotated[i] == if old(annotated)[i].image == image
                          then old(annotated)[i].(lockedByReviewer := None, lockTimeReviewer := None)
                          else old(annotated)[i]
      ensures annotated == Reviewer.Resolve(old(annotated), image, acceptStatus, score)
      ensures old(Consistent()) ==> Consistent()
    {
      reviewed := reviewed + [ReviewedRow(image, reviewer, score, finalText, now)];
      Workflow.ResolveShrinks(annotated, image, acceptStatus, score);
      if Reviewer.SendsBack(acceptStatus, score) {
        Reviewer.ResolveSendsBack(annotated, image, acceptStatus, score);
      } else {
        Reviewer.ResolveApproves(annotated, image, acceptStatus, score);
      }
      annotated := Reviewer.Resolve(annotated, image, acceptStatus, score);
    }
  }
}
