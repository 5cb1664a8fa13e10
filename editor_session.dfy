/**
 * The editor page's session state (hosted_editor/editor.js): the module-level
 * flags, the `init`/`requestContent` message listener, the editor's ready,
 * live-update and paste handlers, the upload counter and the length guard.
 * Each handler runs to completion as one event; TinyMCE's document is kept
 * as the HTML text `getContent()` returns.
 */
module EditorSession {
  import opened Wrappers
  import opened JsText
  import opened Patterns
  import opened Sanitizers
  import opened PasteCleaner

  /** A message the editor page receives: anything that is not an object
      (or is null), or an object with a `type` and an optional string `value`. */
  datatype Inbound =
    | NotAnObject
    | Message(msgType: seq<char>, value: Option<seq<char>>)

  /** A message the editor page posts to the host frame. */
  datatype Outbound =
    | LiveUpdate(html: seq<char>)
    | Change(html: seq<char>)

  /** The counter's state after a length check. */
  datatype Band = Processing | Normal | Warning | AtCap

  /** The Salesforce long-text cap the editor enforces, in characters. */
  const MaxChars: nat := 125000

  /** 90% of the cap: 125000 * 0.90 is exactly 112500 in binary floating point. */
  const WarningThreshold: nat := 112500

  /** The HTML the editor hands to the host: empty paragraphs stripped, then
      widths normalised. Every width in it is normal. */
  function Finalize(html: seq<char>): (r: seq<char>)
    ensures Normalized(r)
    ensures NormalizeWidths(r) == r
  {
    NormalizeWidthsIdempotent(RemoveLeadingEmptyParagraph(html));
    NormalizeWidths(RemoveLeadingEmptyParagraph(html))
  }

  /** The counter band for a document of `count` characters when no paste or
      upload is running. */
  function LengthBand(count: nat): (b: Band)
    ensures b == Warning <==> WarningThreshold < count < MaxChars
    ensures b == AtCap <==> count >= MaxChars
    ensures b == Normal <==> count <= WarningThreshold
    ensures b != Processing
  {
    if count >= MaxChars then AtCap
    else if count > WarningThreshold then Warning
    else Normal
  }

  /** The hard stop: the first `MaxChars` characters when the document is
      longer, the document itself otherwise. */
  function Truncated(html: seq<char>): (r: seq<char>)
    ensures |r| <= MaxChars && r <= html
    ensures |html| <= MaxChars <==> r == html
    ensures |html| > MaxChars ==> |r| == MaxChars
  {
    if |html| > MaxChars then html[..MaxChars] else html
  }

  class Session {
    var pendingInitialHtml: seq<char>
    var hasInstance: bool            // `editorInstance` has been set by `setup`
    var editorReady: bool
    var initialContentApplied: bool
    var isPasting: bool
    var isUploading: bool
    var activeUploads: int
    var content: seq<char>           // the editor's document
    var posted: seq<Outbound>        // messages posted to the host, oldest first

    /** The ready flag needs an editor; applied content needs a ready
        editor; once the editor is ready nothing stays queued; and the
        uploading flag says whether an upload is running. */
    predicate Valid()
      reads this
    {
      (editorReady ==> hasInstance) &&
      (initialContentApplied ==> editorReady) &&
      (editorReady ==> pendingInitialHtml == []) &&
      activeUploads >= 0 && isUploading == (activeUploads > 0)
    }

    /** The editor, ready, applied, pasting and uploading flags and the
        number of running uploads. */
    function Flags(): (bool, bool, bool, bool, bool, int)
      reads this
    {
      (hasInstance, editorReady, initialContentApplied, isPasting, isUploading, activeUploads)
    }

    /** The page as loaded: no editor yet, nothing queued, nothing posted. */
    constructor ()
      ensures Valid()
      ensures pendingInitialHtml == [] && !hasInstance && !editorReady && !initialContentApplied
      ensures !isPasting && !isUploading && activeUploads == 0 && content == [] && posted == []
    {
      pendingInitialHtml := [];
      hasInstance := false;
      editorReady := false;
      initialContentApplied := false;
      isPasting := false;
      isUploading := false;
      activeUploads := 0;
      content := [];
      posted := [];
    }

    /** TinyMCE's `setup` callback records the editor instance. */
    method Setup()
      requires Valid()
      modifies this
      ensures Valid()
      ensures hasInstance
      ensures pendingInitialHtml == old(pendingInitialHtml) && editorReady == old(editorReady)
      ensures initialContentApplied == old(initialContentApplied) && content == old(content)
      ensures isPasting == old(isPasting) && isUploading == old(isUploading)
      ensures activeUploads == old(activeUploads) && posted == old(posted)
    {
      hasInstance := true;
    }

    /** An `init` message: its value (or the empty text) is queued; when the
        editor is ready it is applied at once and the queue cleared. Before
        ready, a later `init` overwrites an earlier one. */
    method ReceiveInit(value: Option<seq<char>>)
      requires Valid()
      modifies this
      ensures Valid()
      ensures var v := if value.Some? then value.value else [];
        if old(editorReady && hasInstance) then
          content == v && initialContentApplied && pendingInitialHtml == []
        else
          content == old(content) && initialContentApplied == old(initialContentApplied) &&
          pendingInitialHtml == v
      ensures hasInstance == old(hasInstance) && editorReady == old(editorReady)
      ensures isPasting == old(isPasting) && isUploading == old(isUploading)
      ensures activeUploads == old(activeUploads) && posted == old(posted)
    {
      pendingInitialHtml := if value.Some? then value.value else [];
      if editorReady && hasInstance {
        content := pendingInitialHtml;
        initialContentApplied := true;
        pendingInitialHtml := [];
      }
    }

    /** A `requestContent` message: the final HTML is posted as a `change`.
        With an editor, its anchors are rewritten first (`rewritten` is the
        document as serialised after that rewrite, which stays in the
        editor); without one, the queued value is finalised instead. */
    method RequestContent(rewritten: seq<char>)
      requires Valid()
      modifies this
      ensures Valid()
      ensures content == if old(hasInstance) then rewritten else old(content)
      ensures posted == old(posted) +
        [Change(Finalize(if old(hasInstance) then rewritten else old(pendingInitialHtml)))]
      ensures pendingInitialHtml == old(pendingInitialHtml) && Flags() == old(Flags())
    {
      var html := if hasInstance then rewritten else pendingInitialHtml;
      if hasInstance {
        content := rewritten;
      }
      posted := posted + [Change(Finalize(html))];
    }

    /** The window's message listener: non-objects and unknown types are
        ignored; `init` and `requestContent` are handled as above. The
        listener checks no origin. */
    method OnMessage(data: Inbound, rewritten: seq<char>)
      requires Valid()
      modifies this
      ensures Valid()
      ensures !(data.Message? && data.msgType in {"init", "requestContent"}) ==>
        pendingInitialHtml == old(pendingInitialHtml) && content == old(content) &&
        initialContentApplied == old(initialContentApplied) && posted == old(posted)
      ensures hasInstance == old(hasInstance) && editorReady == old(editorReady)
      ensures isPasting == old(isPasting) && isUploading == old(isUploading)
      ensures activeUploads == old(activeUploads)
      ensures old(initialContentApplied) ==> initialContentApplied
      ensures data.Message? && data.msgType == "init" ==>
        var v := if data.value.Some? then data.value.value else [];
        if old(editorReady && hasInstance) then
          content == v && initialContentApplied && pendingInitialHtml == [] && posted == old(posted)
        else
          content == old(content) && initialContentApplied == old(initialContentApplied) &&
          pendingInitialHtml == v && posted == old(posted)
      ensures data.Message? && data.msgType == "requestContent" ==>
        content == (if old(hasInstance) then rewritten else old(content)) &&
        posted == old(posted) +
          [Change(Finalize(if old(hasInstance) then rewritten else old(pendingInitialHtml)))] &&
        pendingInitialHtml == old(pendingInitialHtml) &&
        initialContentApplied == old(initialContentApplied)
    {
      if data.NotAnObject? {
        return;
      }
      if data.msgType == "init" {
        ReceiveInit(data.value);
      }
      if data.msgType == "requestContent" {
        RequestContent(rewritten);
      }
    }

    /** The editor's `init` event: the editor is ready, and a queued
        non-empty value is applied once, then the queue is cleared. An empty
        queue leaves the content unapplied. */
    method OnEditorReady()
      requires Valid() && hasInstance
      modifies this
      ensures Valid()
      ensures editorReady && pendingInitialHtml == []
      ensures initialContentApplied == (old(initialContentApplied) || old(pendingInitialHtml) != [])
      ensures !old(initialContentApplied) && old(pendingInitialHtml) != [] ==> content == old(pendingInitialHtml)
      ensures old(initialContentApplied) || old(pendingInitialHtml) == [] ==> content == old(content)
      ensures hasInstance == old(hasInstance) && isPasting == old(isPasting)
      ensures isUploading == old(isUploading) && activeUploads == old(activeUploads) && posted == old(posted)
    {
      editorReady := true;
      if !initialContentApplied && pendingInitialHtml != [] {
        content := pendingInitialHtml;
        initialContentApplied := true;
        pendingInitialHtml := [];
      }
    }

    /** The user edits the document (typing, undo, redo, a dialog). */
    method Edit(html: seq<char>)
      requires Valid()
      modifies this
      ensures Valid()
      ensures content == html
      ensures pendingInitialHtml == old(pendingInitialHtml) && hasInstance == old(hasInstance)
      ensures editorReady == old(editorReady) && initialContentApplied == old(initialContentApplied)
      ensures isPasting == old(isPasting) && isUploading == old(isUploading)
      ensures activeUploads == old(activeUploads) && posted == old(posted)
    {
      content := html;
    }

    /** The live-update handler (`keyup`, `change`, `SetContent`, `Undo`,
        `Redo`): the finalised document is posted only once content has been
        applied and while neither a paste nor an upload is running. */
    method OnContentEvent()
      requires Valid()
      modifies this
      ensures Valid()
      ensures var live := old(initialContentApplied) && !old(isUploading) && !old(isPasting);
        posted == old(posted) + (if live then [LiveUpdate(Finalize(old(content)))] else [])
      ensures pendingInitialHtml == old(pendingInitialHtml) && Flags() == old(Flags())
      ensures content == old(content)
    {
      if isUploading || isPasting {
        return;
      }
      if !initialContentApplied {
        return;
      }
      posted := posted + [LiveUpdate(Finalize(content))];
    }

    /** The length guard. While a paste or an upload is running it only
        reports `Processing`; otherwise it reports the band of the length and
        cuts a document longer than the cap down to its first `MaxChars`
        characters. A document of exactly `MaxChars` is flagged, not cut. */
    method EnforceLongTextLimit() returns (band: Band)
      requires Valid() && hasInstance
      modifies this
      ensures Valid()
      ensures old(isPasting) || old(activeUploads) > 0 ==> band == Processing && content == old(content)
      ensures !(old(isPasting) || old(activeUploads) > 0) ==>
        band == LengthBand(|old(content)|) && content == Truncated(old(content))
      ensures pendingInitialHtml == old(pendingInitialHtml) && hasInstance == old(hasInstance)
      ensures editorReady == old(editorReady) && initialContentApplied == old(initialContentApplied)
      ensures isPasting == old(isPasting) && isUploading == old(isUploading)
      ensures activeUploads == old(activeUploads) && posted == old(posted)
    {
      var count := |content|;
      if isPasting || activeUploads > 0 {
        return Processing;
      }
      band := Normal;
      if count > WarningThreshold && count < MaxChars {
        band := Warning;
      }
      if count >= MaxChars {
        band := AtCap;
      }
      if count > MaxChars {
        content := content[..MaxChars];
      }
    }

    /** An upload starts: the counter goes up and the uploading flag is set. */
    method BeginUpload()
      requires Valid()
      modifies this
      ensures Valid()
      ensures activeUploads == old(activeUploads) + 1 && isUploading
      ensures pendingInitialHtml == old(pendingInitialHtml) && hasInstance == old(hasInstance)
      ensures editorReady == old(editorReady) && initialContentApplied == old(initialContentApplied)
      ensures isPasting == old(isPasting) && content == old(content) && posted == old(posted)
    {
      activeUploads := activeUploads + 1;
      isUploading := true;
    }

    /** An upload ends, whether it succeeded or failed: the counter goes down;
        when it reaches zero the uploading flag is cleared and a length check
        is scheduled (`scheduleCheck`). Every end follows its own start (the
        decrement sits in the `finally` of the handler that incremented). */
    method EndUpload() returns (scheduleCheck: bool)
      requires Valid() && activeUploads > 0
      modifies this
      ensures Valid()
      ensures activeUploads == old(activeUploads) - 1
      ensures scheduleCheck <==> activeUploads == 0
      ensures pendingInitialHtml == old(pendingInitialHtml) && hasInstance == old(hasInstance)
      ensures editorReady == old(editorReady) && initialContentApplied == old(initialContentApplied)
      ensures isPasting == old(isPasting) && content == old(content) && posted == old(posted)
    {
      activeUploads := activeUploads - 1;
      scheduleCheck := false;
      if activeUploads <= 0 {
        isUploading := false;
        scheduleCheck := true;
      }
    }

    /** A paste starts (`PastePreProcess`): the paste flag is set and the
        pasted HTML is cleaned before TinyMCE inserts it. */
    method BeginPaste(pasted: seq<char>) returns (cleaned: seq<char>)
      requires Valid()
      modifies this
      ensures Valid()
      ensures isPasting && cleaned == PasteClean(pasted)
      ensures pendingInitialHtml == old(pendingInitialHtml) && hasInstance == old(hasInstance)
      ensures editorReady == old(editorReady) && initialContentApplied == old(initialContentApplied)
      ensures isUploading == old(isUploading) && activeUploads == old(activeUploads)
      ensures content == old(content) && posted == old(posted)
    {
      isPasting := true;
      cleaned := PasteClean(pasted);
    }

    /** The delayed end of a paste (`PastePostProcess`): the paste flag is
        cleared and the length guard runs in the same callback. */
    method EndPaste() returns (band: Band)
      requires Valid() && hasInstance
      modifies this
      ensures Valid()
      ensures !isPasting
      ensures activeUploads > 0 ==> band == Processing && content == old(content)
      ensures activeUploads <= 0 ==>
        band == LengthBand(|old(content)|) && content == Truncated(old(content))
      ensures pendingInitialHtml == old(pendingInitialHtml) && hasInstance == old(hasInstance)
      ensures editorReady == old(editorReady) && initialContentApplied == old(initialContentApplied)
      ensures isUploading == old(isUploading) && activeUploads == old(activeUploads)
      ensures posted == old(posted)
    {
      isPasting := false;
      band := EnforceLongTextLimit();
    }
  }

  /** Two `init` messages before the editor is ready: the second overwrites
      the first, and the ready event applies the second. */
  method TwoInitsBeforeReady(first: seq<char>, second: seq<char>) returns (applied: seq<char>)
    requires second != []
    ensures applied == second
  {
    var s := new Session();
    s.Setup();
    s.ReceiveInit(Some(first));
    s.ReceiveInit(Some(second));
    s.OnEditorReady();
    applied := s.content;
  }

  /** The length guard never leaves more than `MaxChars` characters once no
      paste or upload is running. */
  method LengthGuardCaps(html: seq<char>) returns (kept: seq<char>)
    ensures |kept| <= MaxChars && kept <= html
    ensures |html| <= MaxChars ==> kept == html
  {
    var s := new Session();
    s.Setup();
    s.Edit(html);
    var band := s.EnforceLongTextLimit();
    kept := s.content;
  }

  /** Two overlapping uploads: the uploading flag stays set until the
      second one ends, and only that end schedules the length check. */
  method OverlappingUploads() returns (uploadingAfterFirst: bool, checkAfterFirst: bool,
                                       uploadingAfterSecond: bool, checkAfterSecond: bool)
    ensures uploadingAfterFirst && !checkAfterFirst
    ensures !uploadingAfterSecond && checkAfterSecond
  {
    var s := new Session();
    s.BeginUpload();
    s.BeginUpload();
    checkAfterFirst := s.EndUpload();
    uploadingAfterFirst := s.isUploading;
    checkAfterSecond := s.EndUpload();
    uploadingAfterSecond := s.isUploading;
  }
}
