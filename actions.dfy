/** The two guarded actions of the issue page: posting a comment
    (scripts.js:278-350) and abandoning the issue (scripts.js:213-274).
    Each either issues one request or issues none. */
module Actions {
  import opened Wrappers
  import opened Text
  import HtmlEscape

  const MinCommentLength: nat := 5
  const MinReasonLength: nat := 10

  const ReasonMessage: string := "Please provide a reason (at least 10 characters)"

  datatype CommentPayload = CommentPayload(issueId: nat, commentText: string, csrfToken: string)

  datatype AbandonPayload = AbandonPayload(issueId: nat, reason: string, csrfToken: string)

  /** The comment handler: the text is trimmed, and the request goes out only
      when the trimmed text has at least 5 characters (scripts.js:279-289). */
  function CommentRequest(raw: string, issueId: nat, csrfToken: string): Option<CommentPayload> {
    var commentText := Trim(raw);
    if Utf16Length(commentText) < MinCommentLength then None
    else Some(CommentPayload(issueId, commentText, csrfToken))
  }

  /** What a posted comment looks like on the page: its escaped text
      (scripts.js:320). */
  function DisplayedComment(p: CommentPayload): string {
    HtmlEscape.Escape(p.commentText)
  }

  /** A request is issued exactly for comments of at least 5 characters after
      trimming; the posted text is that trimmed text, which neither starts nor
      ends with whitespace. */
  lemma CommentGuard(raw: string, issueId: nat, csrfToken: string)
    ensures CommentRequest(raw, issueId, csrfToken).Some? <==> Utf16Length(Trim(raw)) >= 5
    ensures CommentRequest(raw, issueId, csrfToken).Some? ==>
      var text := CommentRequest(raw, issueId, csrfToken).value.commentText;
      text == Trim(raw) && |text| > 0 && !IsWhitespace(text[0]) && !IsWhitespace(text[|text| - 1])
  {
    var _ := TrimIsWindow(raw);
    Utf16LengthBounds(Trim(raw));
  }

  /** A comment padded with spaces is judged by its content: ten characters
      of which four are letters issue no request. */
  lemma PaddedShortComment(issueId: nat, csrfToken: string)
    ensures CommentRequest("   abcd   ", issueId, csrfToken) == None
  {
    var pad, body := "   ", "abcd";
    assert pad + body + pad == "   abcd   ";
    TrimPadded(pad, body, pad);
    Utf16LengthBmp(body);
  }

  /** Whitespace around a text with non-whitespace ends is exactly what
      trimming removes. */
  lemma TrimPadded(before: string, body: string, after: string)
    requires forall i :: 0 <= i < |before| ==> IsWhitespace(before[i])
    requires forall i :: 0 <= i < |after| ==> IsWhitespace(after[i])
    requires |body| > 0 && !IsWhitespace(body[0]) && !IsWhitespace(body[|body| - 1])
    ensures Trim(before + body + after) == body
  {
    var s := before + body + after;
    var lo, hi := |before|, |before| + |body|;
    assert forall i :: 0 <= i < lo ==> s[i] == before[i];
    assert forall i :: hi <= i < |s| ==> s[i] == after[i - hi];
    assert s[lo] == body[0] && s[hi - 1] == body[|body| - 1];
    TrimBetween(s, lo, hi);
    assert s[lo..hi] == body;
  }

  /** Trimming a string that is whitespace outside `s[lo..hi]` and has
      non-whitespace at both ends of that window yields the window. */
  lemma TrimBetween(s: string, lo: nat, hi: nat)
    requires lo < hi <= |s|
    requires forall i :: 0 <= i < lo ==> IsWhitespace(s[i])
    requires forall i :: hi <= i < |s| ==> IsWhitespace(s[i])
    requires !IsWhitespace(s[lo]) && !IsWhitespace(s[hi - 1])
    ensures Trim(s) == s[lo..hi]
  {
    var start := TrimIsWindow(s);
    assert start == lo;
  }

  /** The comment shown on the page reads back as the text that was posted,
      and contains no character that starts or ends markup. */
  lemma DisplayedCommentFaithful(p: CommentPayload)
    ensures HtmlEscape.Unescape(DisplayedComment(p)) == p.commentText
    ensures forall i :: 0 <= i < |DisplayedComment(p)| ==> !HtmlEscape.IsMarkup(DisplayedComment(p)[i])
  {
    HtmlEscape.UnescapeEscape(p.commentText);
    HtmlEscape.EscapeHasNoMarkup(p.commentText);
  }

  /** The value the abandon dialog hands on: SweetAlert2 trims the text of
      its input before it calls `inputValidator` and before it resolves with
      `result.value` (its `inputAutoTrim` option, on by default and not
      switched off at scripts.js:214-230). */
  function DialogValue(typed: string): string {
    Trim(typed)
  }

  /** The `inputValidator` of the abandon dialog: a message for an empty
      reason or one shorter than 10 characters once trimmed
      (scripts.js:225-229), nothing otherwise. */
  function ReasonValidator(value: string): Option<string> {
    if value == "" || Utf16Length(Trim(value)) < MinReasonLength then Some(ReasonMessage) else None
  }

  /** The dialog resolves as confirmed only with a value the validator
      accepts; that value, the trimmed text, is posted as the reason
      (scripts.js:230-242). */
  function AbandonRequest(confirmed: bool, typed: string, issueId: nat, csrfToken: string): Option<AbandonPayload> {
    var value := DialogValue(typed);
    if confirmed && ReasonValidator(value) == None then Some(AbandonPayload(issueId, value, csrfToken))
    else None
  }

  /** The dialog's own trimming changes no verdict of the validator: the
      validator trims as well, and an all-whitespace reason fails either way. */
  lemma ValidatorIgnoresAutoTrim(typed: string)
    ensures ReasonValidator(DialogValue(typed)) == ReasonValidator(typed)
  {
    TrimIdempotent(typed);
  }

  /** The request is issued exactly when the user confirms a reason of at
      least 10 characters after trimming; the emptiness test adds nothing,
      and the reason sent is the trimmed text, which neither starts nor ends
      with whitespace. */
  lemma AbandonGuard(confirmed: bool, typed: string, issueId: nat, csrfToken: string)
    ensures AbandonRequest(confirmed, typed, issueId, csrfToken).Some?
      <==> confirmed && Utf16Length(Trim(typed)) >= 10
    ensures AbandonRequest(confirmed, typed, issueId, csrfToken).Some? ==>
      var reason := AbandonRequest(confirmed, typed, issueId, csrfToken).value.reason;
      reason == Trim(typed) && Utf16Length(reason) >= 10
      && !IsWhitespace(reason[0]) && !IsWhitespace(reason[|reason| - 1])
  {
    TrimIdempotent(typed);
    var _ := TrimIsWindow(typed);
    Utf16LengthBounds(Trim(typed));
  }

  /** A padded reason is judged and posted without its padding. */
  lemma PaddedReasonPostedTrimmed(issueId: nat, csrfToken: string)
    ensures AbandonRequest(true, "  the reason is long  ", issueId, csrfToken)
      == Some(AbandonPayload(issueId, "the reason is long", csrfToken))
  {
    var pad, body := "  ", "the reason is long";
    ReasonPieces(pad, body);
    AbandonPadded(pad, body, issueId, csrfToken);
  }

  lemma ReasonPieces(pad: string, body: string)
    requires pad == "  " && body == "the reason is long"
    ensures pad + body + pad == "  the reason is long  "
    ensures forall i :: 0 <= i < |pad| ==> IsWhitespace(pad[i])
    ensures |body| > 0 && !IsWhitespace(body[0]) && !IsWhitespace(body[|body| - 1])
    ensures Utf16Length(body) == 18
  {
    Utf16LengthBmp(body);
  }

  /** A confirmed reason of at least 10 code units between whitespace is
      posted without that whitespace. */
  lemma AbandonPadded(pad: string, body: string, issueId: nat, csrfToken: string)
    requires forall i :: 0 <= i < |pad| ==> IsWhitespace(pad[i])
    requires |body| > 0 && !IsWhitespace(body[0]) && !IsWhitespace(body[|body| - 1])
    requires Utf16Length(body) >= 10
    ensures AbandonRequest(true, pad + body + pad, issueId, csrfToken)
      == Some(AbandonPayload(issueId, body, csrfToken))
  {
    TrimPadded(pad, body, pad);
    TrimIdempotent(pad + body + pad);
  }

  /** A reason of nine characters is refused. */
  lemma NineCharacterReasonRefused(issueId: nat, csrfToken: string)
    ensures ReasonValidator("too short") == Some(ReasonMessage)
    ensures AbandonRequest(true, "too short", issueId, csrfToken) == None
  {
    var r := "too short";
    TrimShortens(r);
    Utf16LengthBmp(r);
  }
}
