/** The three tables the annotator app and the reviewer app share, and the
    lease rule both apps apply to their lock columns. */
module Tables {
  import opened Sql

  /** A login name of an annotator or a reviewer. */
  type UserId = string

  /** An `image_name`, represented by its rank in the collation order that
      `ORDER BY image_name` uses; distinct names have distinct ranks. */
  type ImageId = nat

  /** A point of the database clock `NOW()`, counted in minutes. */
  type Minutes = int

  /** The lease both apps write as `INTERVAL '10 minutes'`. */
  const LEASE_MINUTES: int := 10

  /** A row of `input_data`: the image, its tweet and the model's reasoning
      (shown to workers, never interpreted), and the annotator lock. */
  datatype InputRow = InputRow(
    image: ImageId,
    tweetText: string,
    llmReasoning: string,
    lockedBy: Option<UserId>,
    lockTime: Option<Minutes>)

  /** A row of `annotated`: one annotator's three scores, whether they accept
      the model's reasoning (1) or not (0), their comment, and the reviewer
      lock. */
  datatype AnnotatedRow = AnnotatedRow(
    user: UserId,
    image: ImageId,
    evidence: int,
    reasoning: int,
    naturalness: int,
    acceptStatus: int,
    comment: string,
    lockedByReviewer: Option<UserId>,
    lockTimeReviewer: Option<Minutes>)

  /** A row of `reviewed`. */
  datatype ReviewedRow = ReviewedRow(
    image: ImageId,
    reviewer: UserId,
    score: int,
    finalText: string,
    reviewTime: Minutes)

  /** `holder IS NULL OR since < NOW() - INTERVAL '10 minutes'`, read with
      SQL's NULL logic: a holder whose lock time is NULL keeps the row. */
  predicate LeaseOpen(holder: Option<UserId>, since: Option<Minutes>, now: Minutes): (open: bool)
    ensures holder.None? ==> open
    ensures holder.Some? && since.None? ==> !open
    ensures holder.Some? && since.Some? ==> (open <==> now - since.value > LEASE_MINUTES)
  {
    holder.None? || (since.Some? && since.value < now - LEASE_MINUTES)
  }

  /** `image_name` is the key of `input_data`. */
  predicate UniqueImages(rows: seq<InputRow>)
  {
    forall i, j :: 0 <= i < j < |rows| ==> rows[i].image != rows[j].image
  }

  /** `WHERE image_name = img` on `input_data` */
  function InputOnImage(img: ImageId): InputRow -> bool
  {
    (r: InputRow) => r.image == img
  }

  /** `ORDER BY image_name` on `input_data` */
  function InputKey(r: InputRow): int
  {
    r.image
  }

  function InputImages(rows: seq<InputRow>): set<ImageId>
  {
    set r | r in rows :: r.image
  }

  /** `SELECT image_name FROM annotated` */
  function AnnotatedImages(rows: seq<AnnotatedRow>): set<ImageId>
  {
    set r | r in rows :: r.image
  }

  /** `SELECT image_name FROM reviewed` */
  function ReviewedImages(rows: seq<ReviewedRow>): set<ImageId>
  {
    set r | r in rows :: r.image
  }

  /** The state every operation keeps once the store starts with no
      annotations: an image that has an annotation carries no annotator
      lock, because the annotation was saved together with releasing it. */
  predicate AnnotatedUnleased(inputData: seq<InputRow>, annotated: seq<AnnotatedRow>)
  {
    forall r :: r in inputData && r.image in AnnotatedImages(annotated) ==>
      r.lockedBy.None? && r.lockTime.None?
  }

  /** A lease taken at `t` keeps its row until strictly more than the lease
      has passed: at `t + LEASE_MINUTES` exactly the row is still held. */
  lemma LeaseWindow(u: UserId, t: Minutes, now: Minutes)
    ensures LeaseOpen(Some(u), Some(t), now) <==> now > t + LEASE_MINUTES
    ensures !LeaseOpen(Some(u), Some(t), t + LEASE_MINUTES)
  {
  }
}
