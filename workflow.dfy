/** How the two apps' operations combine on the shared store: the lock
    invariant they keep together, the send-back loop from review to
    annotation, and the end of an image's life once a review approves it. */
module Workflow {
  import opened Sql
  import opened Tables
  import Annotator
  import Reviewer

  /** A claim stamps only an image nobody has annotated, so it keeps every
      annotated image unlocked. */
  lemma ClaimKeepsUnleased(rows: seq<InputRow>, annotated: seq<AnnotatedRow>, u: UserId, now: Minutes)
    requires AnnotatedUnleased(rows, annotated)
    ensures var k := Annotator.NextImage(rows, annotated, now);
      k.Some? ==> AnnotatedUnleased(Annotator.Claim(rows, rows[k.value].image, u, now), annotated)
  {
    var k := Annotator.NextImage(rows, annotated, now);
    if k.Some? {
      var img := rows[k.value].image;
      var claimed := Annotator.Claim(rows, img, u, now);
      forall r | r in claimed && r.image in AnnotatedImages(annotated)
        ensures r.lockedBy.None? && r.lockTime.None?
      {
        var i :| 0 <= i < |claimed| && claimed[i] == r;
        assert rows[i] in rows;
      }
    }
  }

  /** Saving an annotation releases the lock of its image, so every
      annotated image stays unlocked, the new one included. */
  lemma SaveKeepsUnleased(rows: seq<InputRow>, annotated: seq<AnnotatedRow>, row: AnnotatedRow)
    requires AnnotatedUnleased(rows, annotated)
    ensures AnnotatedUnleased(Annotator.Unlock(rows, row.image), Annotator.Upsert(annotated, row))
  {
    var unlocked := Annotator.Unlock(rows, row.image);
    var saved := Annotator.Upsert(annotated, row);
    var kept := DeleteWhere(annotated, Annotator.IsPair(row.user, row.image));
    forall r | r in unlocked && r.image in AnnotatedImages(saved)
      ensures r.lockedBy.None? && r.lockTime.None?
    {
      var i :| 0 <= i < |unlocked| && unlocked[i] == r;
      assert rows[i] in rows;
      if r.image != row.image {
        var a :| a in saved && a.image == r.image;
        assert a in kept;
        assert a in annotated;
      }
    }
  }

  /** Releasing a user's locks only clears locks. */
  lemma ReleaseKeepsUnleased(rows: seq<InputRow>, annotated: seq<AnnotatedRow>, u: UserId)
    requires AnnotatedUnleased(rows, annotated)
    ensures AnnotatedUnleased(Annotator.ReleaseLocks(rows, u), annotated)
  {
    var released := Annotator.ReleaseLocks(rows, u);
    forall r | r in released && r.image in AnnotatedImages(annotated)
      ensures r.lockedBy.None? && r.lockTime.None?
    {
      var i :| 0 <= i < |released| && released[i] == r;
      assert rows[i] in rows;
    }
  }

  /** The reviewer's operations never add an annotated image, so they keep
      the annotated images unlocked. */
  lemma ShrinkKeepsUnleased(rows: seq<InputRow>, annotated: seq<AnnotatedRow>, annotated': seq<AnnotatedRow>)
    requires AnnotatedUnleased(rows, annotated)
    requires AnnotatedImages(annotated') <= AnnotatedImages(annotated)
    ensures AnnotatedUnleased(rows, annotated')
  {
  }

  /** A resolved review never adds an annotated image. */
  lemma ResolveShrinks(annotated: seq<AnnotatedRow>, img: ImageId, acceptStatus: int, score: int)
    ensures AnnotatedImages(Reviewer.Resolve(annotated, img, acceptStatus, score)) <= AnnotatedImages(annotated)
  {
    if Reviewer.SendsBack(acceptStatus, score) {
      Reviewer.ResolveSendsBack(annotated, img, acceptStatus, score);
      var resolved := Reviewer.Resolve(annotated, img, acceptStatus, score);
      forall x | x in AnnotatedImages(resolved) ensures x in AnnotatedImages(annotated) {
        var a :| a in resolved && a.image == x;
        assert a in annotated;
      }
    } else {
      Reviewer.ResolveApproves(annotated, img, acceptStatus, score);
    }
  }

  /** A review that sends an annotated image back makes it claimable again
      by every annotator at once: the next claim returns it or an image
      before it. */
  lemma RejectionReopensImage(rows: seq<InputRow>, annotated: seq<AnnotatedRow>, img: ImageId,
                              acceptStatus: int, score: int, u: UserId, now: Minutes)
    requires AnnotatedUnleased(rows, annotated)
    requires img in InputImages(rows) && img in AnnotatedImages(annotated)
    requires Reviewer.SendsBack(acceptStatus, score)
    ensures var resolved := Reviewer.Resolve(annotated, img, acceptStatus, score);
      var k := Annotator.NextImage(rows, resolved, now);
      k.Some? && rows[k.value].image <= img
  {
    var resolved := Reviewer.Resolve(annotated, img, acceptStatus, score);
    Reviewer.ResolveSendsBack(annotated, img, acceptStatus, score);
    var r :| r in rows && r.image == img;
    var i :| 0 <= i < |rows| && rows[i] == r;
    assert Annotator.Claimable(rows[i], resolved, now);
  }

  /** A review that approves keeps the image out of every annotator claim,
      at any time. */
  lemma ApprovalClosesImage(rows: seq<InputRow>, annotated: seq<AnnotatedRow>, img: ImageId,
                            acceptStatus: int, score: int, now: Minutes)
    requires img in AnnotatedImages(annotated)
    requires !Reviewer.SendsBack(acceptStatus, score)
    ensures var resolved := Reviewer.Resolve(annotated, img, acceptStatus, score);
      var k := Annotator.NextImage(rows, resolved, now);
      k.Some? ==> rows[k.value].image != img
  {
    Reviewer.ResolveApproves(annotated, img, acceptStatus, score);
  }

  /** Whichever way a review goes, its row stays in `reviewed`, so no later
      review claim offers that image, whatever the annotators do with it
      meanwhile and however many further reviews are added. */
  lemma ReviewClosesReviewing(reviewed: seq<ReviewedRow>, review: ReviewedRow, later: seq<ReviewedRow>,
                              annotated: seq<AnnotatedRow>, inputData: seq<InputRow>, reviewer: UserId, now: Minutes)
    ensures var k := Reviewer.NextReview(annotated, inputData, reviewed + [review] + later, reviewer, now);
      k.Some? ==> annotated[k.value].image != review.image
  {
    assert review in reviewed + [review] + later;
  }

  /** Two annotators can both hold and both save the same image: the first
      lease lapses unsaved, a second annotator claims the image, and then
      both submit. `save_annotation` deletes only its own user's row, so two
      annotations of one image remain, and the annotator progress, which
      counts rows, then exceeds the number of images. */
  lemma DoubleAnnotationReachable()
    ensures var rows := [InputRow(0, "", "", None, None)];
      var first := Annotator.NewAnnotation("a1", 0, 3, 4, 5, 1, "");
      var second := Annotator.NewAnnotation("a2", 0, 2, 2, 2, 0, "unclear");
      var claimedA := Annotator.Claim(rows, 0, "a1", 0);
      var claimedB := Annotator.Claim(claimedA, 0, "a2", LEASE_MINUTES + 1);
      var saved := Annotator.Upsert(Annotator.Upsert([], first), second);
      && Annotator.NextImage(rows, [], 0) == Some(0)
      && Annotator.NextImage(claimedA, [], LEASE_MINUTES + 1) == Some(0)
      && claimedB[0].lockedBy == Some("a2") && claimedB[0].lockTime == Some(LEASE_MINUTES + 1)
      && saved == [first, second]
      && |saved| > |rows|
  {
    var rows := [InputRow(0, "", "", None, None)];
    var first := Annotator.NewAnnotation("a1", 0, 3, 4, 5, 1, "");
    var second := Annotator.NewAnnotation("a2", 0, 2, 2, 2, 0, "unclear");
    var claimedA := Annotator.Claim(rows, 0, "a1", 0);
    assert claimedA[0].lockTime == Some(0);
    assert Annotator.Claimable(claimedA[0], [], LEASE_MINUTES + 1);
    assert Annotator.Claimable(rows[0], [], 0);
    assert DeleteWhere([first], Annotator.IsPair("a2", 0)) == [first] by {
      assert first.user != "a2";
      assert DeleteWhere([first][1..], Annotator.IsPair("a2", 0)) == [];
    }
  }

  /** Two reviewers ask for work a minute apart, with one unreviewed
      annotation of image 0. As written, `get_next_review` stores nothing,
      so both are offered the same annotation; with the claim committed,
      the second reviewer is offered nothing while the first one's lease
      runs. */
  lemma UncommittedReviewClaimShared()
    ensures var inputData := [InputRow(0, "t", "why", None, None)];
      var annotated := [Annotator.NewAnnotation("a1", 0, 3, 4, 5, 1, "")];
      && Reviewer.NextReview(annotated, inputData, [], "r1", 5) == Some(0)
      && Reviewer.NextReview(annotated, inputData, [], "r2", 6) == Some(0)
      && Reviewer.NextReview(Reviewer.StampReview(annotated, 0, "r1", 5), inputData, [], "r2", 6).None?
  {
    var inputData := [InputRow(0, "t", "why", None, None)];
    var annotated := [Annotator.NewAnnotation("a1", 0, 3, 4, 5, 1, "")];
    assert 0 in InputImages(inputData);
    assert Reviewer.Reviewable(annotated[0], inputData, [], "r1", 5);
    assert Reviewer.Reviewable(annotated[0], inputData, [], "r2", 6);
    var stamped := Reviewer.StampReview(annotated, 0, "r1", 5);
    assert !Reviewer.Reviewable(stamped[0], inputData, [], "r2", 6);
  }

  /** The comment an annotator's submission saves: empty when they accept
      the model's reasoning, whatever they had typed, and the typed text
      when they reject it. */
  lemma SavedComment(annotated: seq<AnnotatedRow>, u: UserId, img: ImageId, evidence: int, reasoning: int,
                     naturalness: int, acceptStatus: int, typed: string)
    requires acceptStatus == 0 || acceptStatus == 1
    ensures var row := Annotator.NewAnnotation(u, img, evidence, reasoning, naturalness, acceptStatus,
                                               Annotator.SessionComment(acceptStatus, typed));
      forall x :: x in Annotator.Upsert(annotated, row) && x.user == u && x.image == img ==>
        x.comment == (if acceptStatus == 1 then "" else typed)
  {
    var row := Annotator.NewAnnotation(u, img, evidence, reasoning, naturalness, acceptStatus,
                                       Annotator.SessionComment(acceptStatus, typed));
    Annotator.UpsertLeavesOneRow(annotated, row);
  }

  /** The walk-through of one image: annotator `a1` claims image 0 and
      accepts it with scores 3, 4, 5; reviewer `r1` claims that annotation,
      with the claim committed, and agrees. Afterwards the annotation is still there, the review is
      recorded, and neither annotators nor reviewers can claim the image. */
  lemma ApprovedImageWalkthrough(later: Minutes)
    ensures var rows := Annotator.Claim([InputRow(0, "t", "why", None, None)], 0, "a1", 0);
      var row := Annotator.NewAnnotation("a1", 0, 3, 4, 5, 1, "");
      var inputData := Annotator.Unlock(rows, 0);
      var annotated := Annotator.Upsert([], row);
      var offered := Reviewer.NextReview(annotated, inputData, [], "r1", 1);
      var stamped := Reviewer.StampReview(annotated, 0, "r1", 1);
      var resolved := Reviewer.Resolve(stamped, 0, 1, 1);
      var reviewed := [ReviewedRow(0, "r1", 1, "fine", 2)];
      && offered == Some(0)
      && resolved == [row]
      && Annotator.NextImage(inputData, resolved, later).None?
      && Reviewer.NextReview(resolved, inputData, reviewed, "r1", later).None?
  {
    var row := Annotator.NewAnnotation("a1", 0, 3, 4, 5, 1, "");
    var rows := Annotator.Claim([InputRow(0, "t", "why", None, None)], 0, "a1", 0);
    var inputData := Annotator.Unlock(rows, 0);
    var annotated := Annotator.Upsert([], row);
    assert annotated == [row];
    assert inputData[0].image == 0;
    assert 0 in InputImages(inputData);
    assert Reviewer.Reviewable(annotated[0], inputData, [], "r1", 1);
    var stamped := Reviewer.StampReview(annotated, 0, "r1", 1);
    Reviewer.ResolveApproves(stamped, 0, 1, 1);
    assert Reviewer.Resolve(stamped, 0, 1, 1)[0] == row;
    assert 0 in AnnotatedImages([row]);
    assert 0 in ReviewedImages([ReviewedRow(0, "r1", 1, "fine", 2)]);
  }
}
