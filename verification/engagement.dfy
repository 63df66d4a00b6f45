/** Likes and comments on the article detail page, as a sequential state
    machine. The like button updates optimistically: it flips `isLiked`,
    moves the count by one (never below zero), remembers what it replaced,
    and then either adopts the server's count or rolls back exactly. The
    react-query mutation's pending flag is the `inFlight` field; server
    replies and timer firings are events. */
module Engagement {
  import opened Common

  datatype LikeAction = Like | Unlike

  /** The action's name as it appears in the request path and messages. */
  function ActionName(a: LikeAction): String {
    match a
    case Like => "like"
    case Unlike => "unlike"
  }

  /** The like fields `onMutate` saves before updating them. */
  datatype Snapshot = Snapshot(likeCount: int, isLiked: bool)

  /** The detail page's like and comment state. `inFlight` holds the action
      of the pending like mutation and the snapshot `onMutate` returned as
      its context; it is `None` when no like request is pending. */
  datatype Detail = Detail(
    isLiked: bool,
    likeCount: int,
    inFlight: Option<(LikeAction, Snapshot)>,
    error: String,
    commentText: String)

  datatype Event =
    | StatusLoaded(liked: bool, count: int)  // the like-status query delivers
    | ToggleLike                             // the like button is pressed
    | LikeSucceeded(likes: int)              // the server's updated like count
    | LikeFailed(message: String)            // the request failed with this message
    | ErrorTimerFired                        // the 5-second error timer ends
    | CommentEdited(text: String)            // the comment box changes
    | CommentPosted                          // the comment request succeeded
    | CommentFailed                          // the comment request failed

  const GuestUser: String := "Guest User"
  const CommentFailedMessage: String := "Failed to post comment. Please try again."

  /** `handleLikeToggle`'s choice: unlike what is liked, like what is not. */
  function ActionFor(isLiked: bool): (a: LikeAction)
    ensures a == Unlike <==> isLiked
  {
    if isLiked then Unlike else Like
  }

  /** `onMutate`'s optimistic update of the saved fields. */
  function Optimistic(s: Snapshot, a: LikeAction): (r: Snapshot)
    ensures r.isLiked <==> a == Like
    ensures a == Unlike || s.likeCount >= 0 ==> r.likeCount >= 0
    ensures a == Like ==> r.likeCount > s.likeCount
    ensures a == Unlike ==> r.likeCount <= Max(0, s.likeCount)
  {
    match a
    case Like => Snapshot(s.likeCount + 1, true)
    case Unlike => Snapshot(Max(0, s.likeCount - 1), false)
  }

  /** An optimistic unlike undoes an optimistic like; a like undoes an
      unlike except at zero, where the floor swallowed the decrement. */
  lemma {:induction false} OptimisticInverse(s: Snapshot)
    ensures s.likeCount >= 0 ==> Optimistic(Optimistic(s, Like), Unlike).likeCount == s.likeCount
    ensures Optimistic(Optimistic(s, Unlike), Like).likeCount == s.likeCount <==> s.likeCount >= 1
  {
  }

  /** The error shown when a like request fails: the error's own message,
      or a default naming the action when that message is empty. */
  function LikeFailedMessage(a: LikeAction, message: String): (r: String)
    ensures |r| > 0
    ensures message != [] ==> r == message
  {
    if message != [] then message
    else "Failed to " + ActionName(a) + " article. Please try again."
  }

  function Step(d: Detail, e: Event): Detail
  {
    match e
    case StatusLoaded(liked, count) => d.(isLiked := liked, likeCount := count)
    case ToggleLike =>
      if d.inFlight.Some? then d
      else
        var a := ActionFor(d.isLiked);
        var snap := Snapshot(d.likeCount, d.isLiked);
        var o := Optimistic(snap, a);
        d.(isLiked := o.isLiked, likeCount := o.likeCount, inFlight := Some((a, snap)), error := "")
    case LikeSucceeded(likes) =>
      if d.inFlight.None? then d
      else d.(likeCount := likes, inFlight := None)
    case LikeFailed(message) =>
      if d.inFlight.None? then d
      else
        var (a, snap) := d.inFlight.value;
        d.(likeCount := snap.likeCount, isLiked := snap.isLiked, inFlight := None,
           error := LikeFailedMessage(a, message))
    case ErrorTimerFired => d.(error := "")
    case CommentEdited(text) => d.(commentText := text)
    case CommentPosted => d.(commentText := "")
    case CommentFailed => d.(error := CommentFailedMessage)
  }

  function Run(d: Detail, evs: seq<Event>): Detail
    decreases |evs|
  {
    if |evs| == 0 then d else Run(Step(d, evs[0]), evs[1..])
  }

  /** A press of the like button while a like request is pending does
      nothing; otherwise it flips `isLiked`, moves the count one step in the
      chosen direction and clears the error. */
  lemma {:induction false} ToggleLikeEffect(d: Detail)
    ensures d.inFlight.Some? ==> Step(d, ToggleLike) == d
    ensures d.inFlight.None? ==>
              var r := Step(d, ToggleLike);
              && r.isLiked == !d.isLiked
              && r.inFlight == Some(((if d.isLiked then Unlike else Like), Snapshot(d.likeCount, d.isLiked)))
              && (d.isLiked ==> r.likeCount == Max(0, d.likeCount - 1))
              && (!d.isLiked ==> r.likeCount == d.likeCount + 1)
              && r.error == []
              && r.commentText == d.commentText
  {
  }

  /** Events that neither answer the like request nor reload the like
      status: extra presses, the error timer and comment activity. */
  predicate Unrelated(e: Event) {
    e.ToggleLike? || e.ErrorTimerFired? || e.CommentEdited? || e.CommentPosted? || e.CommentFailed?
  }

  /** While a like request is pending, unrelated events leave the like
      fields and the saved snapshot alone. */
  lemma {:induction false} PendingIsStable(d: Detail, evs: seq<Event>)
    requires d.inFlight.Some?
    requires forall k :: 0 <= k < |evs| ==> Unrelated(evs[k])
    ensures Run(d, evs).inFlight == d.inFlight
    ensures Run(d, evs).isLiked == d.isLiked && Run(d, evs).likeCount == d.likeCount
    decreases |evs|
  {
    if |evs| > 0 {
      var d' := Step(d, evs[0]);
      assert Unrelated(evs[0]);
      assert d'.inFlight == d.inFlight && d'.isLiked == d.isLiked && d'.likeCount == d.likeCount;
      PendingIsStable(d', evs[1..]);
    }
  }

  /** A failed like request restores `isLiked` and the count exactly to what
      they were when the button was pressed, whatever unrelated events came
      in between, and shows a non-empty error. */
  lemma {:induction false} FailureRollsBack(d: Detail, mid: seq<Event>, message: String)
    requires d.inFlight.None?
    requires forall k :: 0 <= k < |mid| ==> Unrelated(mid[k])
    ensures var r := Step(Run(Step(d, ToggleLike), mid), LikeFailed(message));
            && r.isLiked == d.isLiked && r.likeCount == d.likeCount
            && r.inFlight.None? && r.error != []
  {
    var t := Step(d, ToggleLike);
    PendingIsStable(t, mid);
  }

  /** A successful like request adopts the server's count and keeps the
      optimistic `isLiked`, whatever unrelated events came in between. */
  lemma {:induction false} SuccessAdoptsServerCount(d: Detail, mid: seq<Event>, likes: int)
    requires d.inFlight.None?
    requires forall k :: 0 <= k < |mid| ==> Unrelated(mid[k])
    ensures var r := Step(Run(Step(d, ToggleLike), mid), LikeSucceeded(likes));
            r.likeCount == likes && r.isLiked == !d.isLiked && r.inFlight.None?
  {
    var t := Step(d, ToggleLike);
    PendingIsStable(t, mid);
  }

  /** The server only ever reports non-negative counts. */
  predicate ServerCountsValid(e: Event) {
    (e.StatusLoaded? ==> e.count >= 0) && (e.LikeSucceeded? ==> e.likes >= 0)
  }

  /** The displayed count and any saved count are non-negative. */
  predicate CountsValid(d: Detail) {
    d.likeCount >= 0 && (d.inFlight.Some? ==> d.inFlight.value.1.likeCount >= 0)
  }

  /** As long as the server reports non-negative counts, the like count
      shown never goes below zero, whatever the order of events. */
  lemma {:induction false} CountStaysNonNegative(d: Detail, evs: seq<Event>)
    requires CountsValid(d)
    requires forall k :: 0 <= k < |evs| ==> ServerCountsValid(evs[k])
    ensures CountsValid(Run(d, evs))
    decreases |evs|
  {
    if |evs| > 0 {
      assert ServerCountsValid(evs[0]);
      var d' := Step(d, evs[0]);
      assert CountsValid(d');
      CountStaysNonNegative(d', evs[1..]);
    }
  }

  /** Comment events never touch the like fields, and like events never
      touch the comment box. */
  lemma {:induction false} CommentsAndLikesIndependent(d: Detail, e: Event)
    ensures e.CommentEdited? || e.CommentPosted? || e.CommentFailed? ==>
              Step(d, e).isLiked == d.isLiked && Step(d, e).likeCount == d.likeCount
              && Step(d, e).inFlight == d.inFlight
    ensures !(e.CommentEdited? || e.CommentPosted?) ==> Step(d, e).commentText == d.commentText
  {
  }

  /** The body of the comment request. */
  datatype NewComment = NewComment(user: String, text: String)

  /** `handleCommentSubmit`: a request is sent only when the text is not
      blank after trimming; it carries the untrimmed text as the guest
      user. */
  function CommentRequest(text: String): (r: Option<NewComment>)
    ensures r.Some? <==> !AllWhite(text)
    ensures r.Some? ==> r.value.text == text && r.value.user == GuestUser
  {
    if Trim(text) != [] then Some(NewComment(GuestUser, text)) else None
  }

  /** The comment box is cleared only by a successful post; a failure keeps
      the text and shows the comment error. */
  lemma {:induction false} CommentOutcome(d: Detail)
    ensures Step(d, CommentPosted).commentText == []
    ensures Step(d, CommentFailed).commentText == d.commentText
    ensures Step(d, CommentFailed).error == CommentFailedMessage
  {
  }
}
