# Task leases and the two-pass workflow of the annotation tool

The annotation tool is two Streamlit apps over one PostgreSQL database.
Annotators score images in one app, and reviewers judge those annotations in
the other. The apps coordinate only through three tables:

- `input_data`: one row per image, with an annotator lock (`locked_by`, `lock_time`).
- `annotated`: annotators' scores, their accept decision and comment, and a
  reviewer lock (`locked_by_reviewer`, `lock_time_reviewer`).
- `reviewed`: one row per submitted review.

This project models those tables and the task-store functions of the two apps
as atomic steps. It proves the lease and workflow properties the apps depend on.

Both apps use the same lease rule: a row may be claimed when its lock holder
is NULL or the lock is more than 10 minutes old. The annotator side works like this:

- `get_next_image` claims the unannotated, unlocked image that comes first by name.
- `save_annotation` replaces the user's annotation and releases the image.

The reviewer side works like this:

- `get_next_review` offers the first annotation that is reviewable. It skips
  images that already have a review, annotations whose reviewer lock is still
  live, and two hard-coded conflict-of-interest pairs. Its lock is never
  committed, so nothing it stamps is kept (see "## Findings").
- Submitting a review always adds a `reviewed` row. When the review rejects
  the work, it also deletes the image's annotations. The image then returns to
  the annotators, but reviewers can never claim it again.

## Layout

- `sql.dfy`, module `Sql`: the SQL statement shapes the apps use, over a table
  held as a sequence of rows. `UPDATE ... WHERE` is `UpdateWhere`, `DELETE ...
  WHERE` is `DeleteWhere`, `COUNT(*) ... WHERE` is `CountWhere`, and
  `ORDER BY key LIMIT 1` is `LeastWhere`. The module also holds lemmas about these.
- `tables.dfy`, module `Tables`: the row types, the 10-minute lease rule
  (`LeaseOpen`), and the lock invariant `AnnotatedUnleased`.
- `annotator.dfy`, module `Annotator`: the statements of `annotate_supabase.py`
  as functions on the tables, with their lemmas.
- `reviewer.dfy`, module `Reviewer`: the same for `reviewer_supabase.py`.
- `workflow.dfy`, module `Workflow`: properties that span both apps. They are
  the lock invariant, the send-back loop, the approved end state, a reachable
  double annotation, and a walk-through of one image.
- `store.dfy`, module `Store`: class `TaskStore`, whose fields are the three
  tables and whose methods are the apps' database calls, plus the committed
  review claim `ClaimReview`.

## Modelling choices

- An `image_name` is represented by its rank in the sort order the database
  uses for `ORDER BY image_name` (`ImageId = nat`). `image_name` is the key of
  `input_data` (`TaskStore.Valid`).
- The database clock `NOW()` and Python's `datetime.now()` are a parameter
  `now`, counted in whole minutes. "Older than 10 minutes" is `lock_time < now - 10`.
- NULL columns are `Option` values. The lease test follows SQL's NULL logic:
  a non-NULL holder whose lock time is NULL keeps its row.
- A table is a sequence whose order carries no meaning. Statements that
  delete rows are specified by multiplicities (as multisets). Statements that
  update rows are specified position by position.
- The score domains come from the two forms and are preconditions:
  - Annotation scores are each 1–5, and the decision is 0 or 1.
  - The reviewer score is 0 or 1 for an accepted annotation and 1–5 otherwise.

The model follows the code, including where it may surprise:

- **Lease lapse.** A lease lapses only when it is strictly older than 10
  minutes. At exactly `lock_time + 10` the row is still held.
- **What a save deletes.** `save_annotation` deletes only the same user's row
  for the image, not every annotation of it. After a lease lapses, a second
  annotator can claim the image, and then both can save, which leaves two
  annotations of one image (`Workflow.DoubleAnnotationReachable`).
- **Annotator progress.** It counts every annotation row of every user
  against the number of images. The user argument is not used.
- **Reviewer progress.** The total is the reviewer's own reviews plus the
  annotations still pending for them.
- **Comment on reject.** No comment is required when the annotator rejects.
- **Lock time.** A lock stores the time it was taken, not a deadline.
- **Review claim.** `get_next_review` stores no lock at all: its UPDATE is
  rolled back when the connection closes uncommitted. The committed claim
  (`Store.TaskStore.ClaimReview`) would lock every annotation of the chosen
  image, not only the row that was selected. As written, the reviewer lock
  columns are therefore never set by either app, and the reviewer releases
  find nothing to clear unless the columns were set from outside.

## Model

| member | source | states |
|---|---|---|
| `Tables.LeaseOpen` | annotate_supabase.py:45 | A row with a NULL holder is open. A non-NULL holder with a NULL lock time keeps it. Otherwise it is open exactly when the lock time lies more than 10 minutes back. |
| `Tables.LeaseWindow` | annotate_supabase.py:45 | A lock taken at `t` keeps its row exactly while `now <= t + 10`, and at `t + 10` the row is still held. |
| `Sql.LeastWhere` | annotate_supabase.py:46-47 | `ORDER BY key LIMIT 1` yields a row meeting the condition whose key is at most that of every such row, and yields nothing exactly when no row meets it. |
| `Sql.UpdateWhere` | annotate_supabase.py:101-105 | An UPDATE keeps the table's size, rewrites exactly the rows meeting its condition and leaves the others as they were. |
| `Sql.DeleteWhere` | reviewer_supabase.py:189 | A DELETE keeps the multiplicity of every row value that does not meet its condition and leaves none of those that do. |
| `Sql.CountWhere` | reviewer_supabase.py:101-105 | A COUNT is at most the table size, and it is zero exactly when no row meets the condition. |
| `Sql.DeleteAfterUpdate` | reviewer_supabase.py:180-189 | An UPDATE is invisible after a DELETE that removes every row it touched. So a rejected review's lock release makes no difference. |
| `Sql.LeastWhereAgrees` | reviewer_supabase.py:55-56 | Two conditions that agree on every row select the same row with `ORDER BY key LIMIT 1`. |
| `Annotator.NextImage` | annotate_supabase.py:39-51 | The image selected has no annotation and a NULL or lapsed lock, and no claimable image comes before it by name. Nothing is selected exactly when no image is claimable. |
| `Annotator.Claim` | annotate_supabase.py:56-60 | Every row of the image is locked for the user from `now`, and every other row is untouched. |
| `Annotator.Unlock` | annotate_supabase.py:77-81 | Every row of the image loses its lock, whoever held it, and every other row is untouched. |
| `Annotator.ReleaseLocks` | annotate_supabase.py:101-105 | Every row the user holds loses its lock, and every other row is untouched. |
| `Annotator.Upsert` | annotate_supabase.py:72-76 | The new row is in the table, every other row was there before and is not the same user's row for the image, and the table grows by at most one row. |
| `Annotator.SessionComment` | annotate_supabase.py:196-203 | On rejection the comment is the typed text. On acceptance it is reset to empty. |
| `Annotator.ClaimHoldsLease` | annotate_supabase.py:45-60 | Once claimed at `t`, the image is claimable exactly when nobody has annotated it and `now > t + 10`, for any user. |
| `Annotator.ClaimIsExclusive` | annotate_supabase.py:45-60 | While the lease runs, no claim by anyone selects the claimed image. |
| `Annotator.ClaimLapses` | annotate_supabase.py:42-60 | After the lease lapses, an unannotated claimed image is claimable again without any release. The next claim yields it or an earlier image. |
| `Annotator.ReleaseLocksExact` | annotate_supabase.py:101-105 | `release_locks(u)` leaves no lock held by `u`, clears each of `u`'s locks and leaves every other row unchanged. |
| `Annotator.ReleaseLocksIdempotent` | annotate_supabase.py:101-105 | Releasing a user's locks twice equals releasing them once. |
| `Annotator.ReleasedImagesClaimable` | annotate_supabase.py:101-105 | An unannotated image whose lock `release_locks(u)` cleared is claimable immediately. |
| `Annotator.UpsertLeavesOneRow` | annotate_supabase.py:72-76 | After a save the user has exactly one row for the image, the new one. Rows of other users or images keep their multiplicities. |
| `Annotator.ResubmitReplaces` | annotate_supabase.py:72-76 | Saving twice for the same user and image equals saving the second annotation once. |
| `Annotator.SavedImageNeverClaimed` | annotate_supabase.py:42-44 | Once an annotation of an image is saved, no claim selects that image at any time. |
| `Reviewer.Excluded` | reviewer_supabase.py:49-52 | Only reviewers `a7` and `a8` are ever excluded, and only from `a4` and `a5`: `a7` exactly from `a4`, `a8` exactly from `a5`. |
| `Reviewer.NextReview` | reviewer_supabase.py:36-57 | The annotation selected joins an input image, has no review, is not an excluded pair and has a NULL or lapsed reviewer lock. No such annotation has an earlier image. Nothing is selected exactly when none qualifies. |
| `Reviewer.InputFor` | reviewer_supabase.py:47 | The join finds an `input_data` row with the annotation's image exactly when one exists. |
| `Reviewer.StampReview` | reviewer_supabase.py:58-61 | The committed claim locks every annotation of the image for the reviewer from `now`, and leaves every other row untouched. |
| `Reviewer.ReleaseLocks` | reviewer_supabase.py:22-26 | Every annotation the reviewer holds loses its reviewer lock, and every other row is untouched. |
| `Reviewer.UnlockReview` | reviewer_supabase.py:180-184 | Every annotation of the image loses its reviewer lock, whoever held it, and every other row is untouched. |
| `Reviewer.SendsBack` | reviewer_supabase.py:188 | For an accepting annotation, the review sends it back exactly when the score is 0. For a rejecting one with a score of 1 to 5, exactly when the score is at most 3. Any other decision value never sends back. |
| `Reviewer.Resolve` | reviewer_supabase.py:180-190 | After a rejecting review no row of the image remains. After an approving one the table keeps its size. It never grows. |
| `Reviewer.ExcludedNeverOffered` | reviewer_supabase.py:49-52 | Reviewer `a7` never gets an annotation by `a4`, and `a8` never gets one by `a5`, even when it is the only candidate. |
| `Reviewer.ReviewedNeverOffered` | reviewer_supabase.py:48 | An image that has a review is never offered for review. |
| `Reviewer.OfferIgnoresReviewer` | reviewer_supabase.py:36-66 | With no lock stored, any two reviewers other than `a7` and `a8` are offered the same annotation at the same moment. |
| `Reviewer.StampHoldsReview` | reviewer_supabase.py:53-61 | For the committed claim: while a reviewer lease runs, no reviewer is offered the stamped image. After it lapses, a pending annotation of that image is offered again, or one with an earlier image. |
| `Reviewer.ReleaseLocksExact` | reviewer_supabase.py:22-26 | `release_locks(r)` leaves no reviewer lock held by `r`, clears each of `r`'s locks and leaves every other row unchanged. |
| `Reviewer.ReleaseLocksIdempotent` | reviewer_supabase.py:22-26 | Releasing a reviewer's locks twice equals releasing them once. |
| `Reviewer.ResolveSendsBack` | reviewer_supabase.py:180-190 | When `(accept = 1 and score = 0) or (accept = 0 and score < 4)`, the review deletes every annotation of the image, exactly as many rows as a COUNT of the image finds, and keeps every other annotation. |
| `Reviewer.ResolveApproves` | reviewer_supabase.py:180-193 | Otherwise the review keeps every annotation, clears the reviewer lock on the image's annotations, and the image stays annotated. |
| `Reviewer.Progress` | reviewer_supabase.py:96-122 | `done <= total`. `done` is zero exactly when the reviewer has written no review. `total = done` exactly when no annotation is unreviewed and non-excluded for them. |
| `Reviewer.OfferMeansRemaining` | reviewer_supabase.py:109-122 | Whenever `get_next_review` would offer something, the progress shows work remaining. |
| `Reviewer.DoneCountsAppend` | reviewer_supabase.py:101-106 | Recording a review raises its author's `done` by one and leaves every other reviewer's `done` unchanged, so `done` never decreases. |
| `Workflow.ClaimKeepsUnleased` | annotate_supabase.py:42-60 | A claim keeps the invariant that annotated images carry no annotator lock. |
| `Workflow.SaveKeepsUnleased` | annotate_supabase.py:72-81 | A save keeps that invariant, for the newly annotated image too. |
| `Workflow.ReleaseKeepsUnleased` | annotate_supabase.py:101-105 | Releasing a user's locks keeps that invariant. |
| `Workflow.ShrinkKeepsUnleased` | reviewer_supabase.py:189 | Removing annotated images keeps that invariant. |
| `Workflow.ResolveShrinks` | reviewer_supabase.py:180-190 | A submitted review never adds an annotated image. |
| `Workflow.RejectionReopensImage` | reviewer_supabase.py:188-189 | Under the invariant, after a rejecting review the image is claimable by annotators at once. The next claim yields it or an earlier image. |
| `Workflow.ApprovalClosesImage` | reviewer_supabase.py:192-193 | After an approving review, no annotator claim selects the image, at any time. |
| `Workflow.ReviewClosesReviewing` | reviewer_supabase.py:173-176 | Once a review of an image is recorded, no later review claim offers that image, whatever follows it. |
| `Workflow.DoubleAnnotationReachable` | annotate_supabase.py:72 | Two annotators can claim and save the same image after a lapsed lease: the second claim selects the image and leaves it locked by `a2`. Two rows then remain, which is more annotations than images. |
| `Workflow.UncommittedReviewClaimShared` | reviewer_supabase.py:58-66 | With one unreviewed annotation, as written both `r1` at minute 5 and `r2` at minute 6 are offered it. With `r1`'s claim committed, `r2` is offered nothing. |
| `Workflow.SavedComment` | annotate_supabase.py:196-203 | An accepting annotation is saved with an empty comment whatever was typed, and a rejecting one with the typed text. |
| `Workflow.ApprovedImageWalkthrough` | reviewer_supabase.py:170-193 | One image annotated and approved keeps its annotation, and neither annotators nor reviewers can claim it afterwards. |
| `Store.TaskStore.GetNextImage` | annotate_supabase.py:34-65 | Returns the image, tweet and model reasoning of the claimable image first by name, or none iff none is claimable. It locks every row of that image for the user from `now`, changes nothing else, and keeps the lock invariant. |
| `Store.TaskStore.SaveAnnotation` | annotate_supabase.py:69-84 | Replaces the user's rows for the image with the new one and clears the image's lock whoever held it. The image is then unclaimable at every time. Nothing else changes. |
| `Store.TaskStore.GetProgress` | annotate_supabase.py:87-96 | `total` is the number of `input_data` rows and `done` the number of annotation rows of all users. The user argument plays no part. |
| `Store.TaskStore.ReleaseLocks` | annotate_supabase.py:98-108 | Clears exactly the annotator locks the user holds and keeps everything else. |
| `Store.TaskStore.GetNextReview` | reviewer_supabase.py:32-67 | As written: returns a reviewable annotation whose image is first by name, with its tweet and reasoning, or none iff none is reviewable. It changes no table, because its UPDATE is never committed. |
| `Store.TaskStore.ClaimReview` | reviewer_supabase.py:32-67 | The committed claim: the same selection, every annotation of the chosen image locked for the reviewer from `now`, nothing else changed, and the lock invariant kept. |
| `Store.TaskStore.ReleaseReviewerLocks` | reviewer_supabase.py:19-29 | Clears exactly the reviewer locks the reviewer holds and keeps everything else. |
| `Store.TaskStore.GetReviewerProgress` | reviewer_supabase.py:96-122 | Returns the reviewer's own review count, and that count plus the unreviewed, non-excluded annotations. |
| `Store.TaskStore.SubmitReview` | reviewer_supabase.py:170-200 | Appends exactly one `reviewed` row. A rejection removes every annotation of the image and keeps the rest. Otherwise it clears only the image's reviewer locks. The result is `Reviewer.Resolve` of the old table. The input table is unchanged. |

## Findings

| source | as written | input that shows it | evidently intended | confidence | as-written member | corrected member |
|---|---|---|---|---|---|---|
| reviewer_supabase.py:58-66 | `get_next_review` closes its connection without `conn.commit()`, so the reviewer lock its UPDATE stamps is rolled back and never stored | one unreviewed annotation of image 0: reviewer `r1` asks at minute 5 and `r2` at minute 6, and both are offered it (`Workflow.UncommittedReviewClaimShared`) | the lock is committed, as every other writing function does, and holds the image against other reviewers for 10 minutes | high; not executed | `Store.TaskStore.GetNextReview`, `Reviewer.OfferIgnoresReviewer` | `Store.TaskStore.ClaimReview`, `Reviewer.StampHoldsReview` |

## Left out

- The Streamlit pages (`login_ui`, `review_mode` and `main` outside the review
  submission) and the session state are presentation. The row a worker is
  shown and later submits is the caller's, and it is passed in as parameters.
- Login is left out because it is credential checking and I/O: the bcrypt check,
  the role check and `log_login_time`.
- The connection setup and its secrets (`get_db_connection`, `PG_CONFIG`) are
  calls into the database driver.
- Concurrency is left out. Each function is one sequential atomic step. That
  covers `FOR UPDATE SKIP LOCKED`, the atomicity of the review claim's CTE,
  and the separate commits inside the review submission.
- The progress bar ratio `done / total if total > 0 else 0` is floating-point
  display arithmetic.
- The submit call at annotate_supabase.py:205 is left out. It names
  `annotator_comment`, which is not bound in `main`. The comment is modelled
  as `save_annotation`'s parameter and the reset to empty on acceptance
  (`Annotator.SessionComment`).
- Neither app checks that a submitting worker still holds a live lease, so
  the model has no such check.
- The tweet text and model reasoning are carried along but never interpreted.
  Image files are not modelled.
- Store.TaskStore.GetNextReview and Store.TaskStore.ClaimReview: when several
  annotations share the first image name they promise only some reviewable
  one of them. `ORDER BY
  image_name LIMIT 1` leaves that choice to the database; the function it
  runs happens to take the first in table order.
