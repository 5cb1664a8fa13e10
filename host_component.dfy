/**
 * The Lightning web component that hosts the editor page in a Flow screen
 * (lwc/bbyoRichTextEditor/bbyoRichTextEditor.js): it relays `Contents` to
 * the editor frame, listens for the frame's messages, and asks the frame
 * once for the final content.
 */
module HostComponent {
  import opened JsText

  /** The JavaScript values the component's properties and messages carry. */
  datatype JsValue =
    | Undefined
    | Null
    | Bool(b: bool)
    | Num(n: int)
    | Str(s: seq<char>)
    | Object

  /** JavaScript truthiness (numbers are integers here, so there is no NaN). */
  predicate Truthy(v: JsValue) {
    match v
    case Undefined => false
    case Null => false
    case Bool(b) => b
    case Num(n) => n != 0
    case Str(s) => s != []
    case Object => true
  }

  /** What a template literal writes for a value. */
  function ToText(v: JsValue): seq<char> {
    match v
    case Undefined => "undefined"
    case Null => "null"
    case Bool(b) => if b then "true" else "false"
    case Num(n) => IntToString(n)
    case Str(s) => s
    case Object => "[object Object]"
  }

  /** The `data` of a message event: a non-object (including null), or an
      object with its `type` and `value` properties. */
  datatype MessageData =
    | NonObject(v: JsValue)
    | ObjectData(msgType: JsValue, value: JsValue)

  /** A message the component posts into the editor frame. */
  datatype FrameMessage =
    | InitMessage(value: JsValue)
    | RequestContentMessage

  /** The origin test of the listener: a substring test, not an equality. */
  predicate AcceptedOrigin(origin: seq<char>) {
    Contains(origin, "bbyosummer.org")
  }

  /** How many `requestContent` messages a list holds. */
  function RequestCount(msgs: seq<FrameMessage>): nat {
    if msgs == [] then 0
    else (if msgs[|msgs| - 1].RequestContentMessage? then 1 else 0) + RequestCount(msgs[..|msgs| - 1])
  }

  lemma {:induction false} RequestCountAppend(a: seq<FrameMessage>, b: seq<FrameMessage>)
    ensures RequestCount(a + b) == RequestCount(a) + RequestCount(b)
    decreases |b|
  {
    if b == [] {
      assert a + b == a;
    } else {
      assert (a + b)[..|a + b| - 1] == a + b[..|b| - 1];
      RequestCountAppend(a, b[..|b| - 1]);
    }
  }

  lemma DefaultFrameStyle()
    ensures "width:100%;height:" + ToText(Num(600)) + "px;border:0;" == "width:100%;height:600px;border:0;"
  {
    SixHundredText();
  }

  lemma SixHundredText()
    ensures ToText(Num(600)) == "600"
  {
    assert NatToString(600) == NatToString(60) + ['0'];
    assert NatToString(60) == NatToString(6) + ['0'];
  }

  class Component {
    var Contents: JsValue
    var height: JsValue
    var TriggerFinish: JsValue
    var hasRequestedFinal: bool
    var mirror: JsValue              // the hidden `#mirror` field's value
    var toFrame: seq<FrameMessage>   // messages posted into the editor frame
    var flowEvents: seq<JsValue>     // `FlowAttributeChangeEvent('Contents', v)` dispatched, oldest first

    /** At most one `requestContent` has ever been posted, and only after
        the one-shot guard was set. */
    predicate Valid()
      reads this
    {
      RequestCount(toFrame) <= 1 && (RequestCount(toFrame) == 1 ==> hasRequestedFinal)
    }

    /** The component as Flow creates it, with the properties Flow passes. */
    constructor (contents: JsValue, heightProperty: JsValue, triggerFinish: JsValue)
      ensures Valid()
      ensures Contents == contents && height == heightProperty && TriggerFinish == triggerFinish
      ensures !hasRequestedFinal && toFrame == [] && flowEvents == [] && mirror == Undefined
    {
      Contents := contents;
      height := heightProperty;
      TriggerFinish := triggerFinish;
      hasRequestedFinal := false;
      mirror := Undefined;
      toFrame := [];
      flowEvents := [];
    }

    /** The `frameStyle` getter: the inline style of the frame, with the
        given height in pixels, or 600 when the height is falsy. */
    function FrameStyle(): (r: seq<char>)
      reads this
      ensures Truthy(height) ==> r == "width:100%;height:" + ToText(height) + "px;border:0;"
      ensures !Truthy(height) ==> r == "width:100%;height:600px;border:0;"
    {
      var h := if Truthy(height) then height else Num(600);
      DefaultFrameStyle();
      "width:100%;height:" + ToText(h) + "px;border:0;"
    }

    /** Flow sets the `TriggerFinish` property. */
    method SetTriggerFinish(v: JsValue)
      requires Valid()
      modifies this
      ensures Valid()
      ensures TriggerFinish == v
      ensures Contents == old(Contents) && height == old(height) && hasRequestedFinal == old(hasRequestedFinal)
      ensures mirror == old(mirror) && toFrame == old(toFrame) && flowEvents == old(flowEvents)
    {
      TriggerFinish := v;
    }

    /** After each render: the first render with a truthy `TriggerFinish`
        sets the guard and, when the frame is there, posts `requestContent`;
        the guard is set even when no frame is found, and never cleared. */
    method RenderedCallback(frameAvailable: bool)
      requires Valid()
      modifies this
      ensures Valid()
      ensures var fire := Truthy(TriggerFinish) && !old(hasRequestedFinal);
        hasRequestedFinal == (old(hasRequestedFinal) || Truthy(TriggerFinish)) &&
        toFrame == old(toFrame) + (if fire && frameAvailable then [RequestContentMessage] else [])
      ensures Contents == old(Contents) && height == old(height) && TriggerFinish == old(TriggerFinish)
      ensures mirror == old(mirror) && flowEvents == old(flowEvents)
    {
      if Truthy(TriggerFinish) && !hasRequestedFinal {
        hasRequestedFinal := true;
        if frameAvailable {
          RequestCountAppend(toFrame, [RequestContentMessage]);
          assert RequestCount(toFrame) == 0;
          toFrame := toFrame + [RequestContentMessage];
        }
      }
    }

    /** Posts `init` with `Contents`, or the empty text when `Contents` is
        falsy; nothing is posted when the frame or its window is missing. */
    method SendInitMessage(frameAvailable: bool)
      requires Valid()
      modifies this
      ensures Valid()
      ensures var value := if Truthy(Contents) then Contents else Str([]);
        toFrame == old(toFrame) + (if frameAvailable then [InitMessage(value)] else [])
      ensures Contents == old(Contents) && height == old(height) && TriggerFinish == old(TriggerFinish)
      ensures hasRequestedFinal == old(hasRequestedFinal) && mirror == old(mirror) && flowEvents == old(flowEvents)
    {
      if !frameAvailable {
        return;
      }
      RequestCountAppend(toFrame, [InitMessage(if Truthy(Contents) then Contents else Str([]))]);
      toFrame := toFrame + [InitMessage(if Truthy(Contents) then Contents else Str([]))];
    }

    /** The window message listener. Messages from an origin that does not
        contain `bbyosummer.org`, and data that is not an object, are
        ignored. `liveUpdate` sets `Contents` and the mirror without telling
        Flow; `change` with a string value sets them and dispatches exactly
        one Flow change event; anything else is ignored. */
    method HandleMessage(origin: seq<char>, data: MessageData)
      requires Valid()
      modifies this
      ensures Valid()
      ensures var live := AcceptedOrigin(origin) && data.ObjectData? && data.msgType == Str("liveUpdate");
        var change := AcceptedOrigin(origin) && data.ObjectData? && data.msgType == Str("change") && data.value.Str?;
        (live ==> Contents == data.value && mirror == data.value && flowEvents == old(flowEvents)) &&
        (change ==> Contents == data.value && mirror == data.value && flowEvents == old(flowEvents) + [data.value]) &&
        (!live && !change ==> Contents == old(Contents) && mirror == old(mirror) && flowEvents == old(flowEvents))
      ensures height == old(height) && TriggerFinish == old(TriggerFinish)
      ensures hasRequestedFinal == old(hasRequestedFinal) && toFrame == old(toFrame)
    {
      if !AcceptedOrigin(origin) {
        return;
      }
      if data.NonObject? {
        return;
      }
      if data.msgType == Str("liveUpdate") {
        Contents := data.value;
        mirror := Contents;
        return;
      }
      if data.msgType == Str("change") && data.value.Str? {
        Contents := data.value;
        mirror := Contents;
        flowEvents := flowEvents + [Contents];
      }
    }
  }

  /** However often the component renders, for a fixed `TriggerFinish`, at
      most one `requestContent` reaches the frame. */
  method RendersRequestAtMostOnce(trigger: JsValue, frames: seq<bool>) returns (requests: nat)
    ensures requests <= 1
    ensures requests == 1 <==> Truthy(trigger) && frames != [] && frames[0]
  {
    var c := new Component(Str("<p>x</p>"), Num(600), trigger);
    var i := 0;
    while i < |frames|
      invariant 0 <= i <= |frames| && c.Valid() && c.TriggerFinish == trigger
      invariant i == 0 ==> c.toFrame == [] && !c.hasRequestedFinal
      invariant i > 0 ==> c.hasRequestedFinal == Truthy(trigger)
      invariant i > 0 ==> (RequestCount(c.toFrame) == 1 <==> Truthy(trigger) && frames[0])
      modifies c
    {
      ghost var before := c.toFrame;
      c.RenderedCallback(frames[i]);
      if i == 0 && Truthy(trigger) && frames[0] {
        assert c.toFrame == [RequestContentMessage];
      } else if i > 0 {
        assert c.toFrame == before + [] == before;
      }
      i := i + 1;
    }
    requests := RequestCount(c.toFrame);
  }

  /** Any origin that merely contains the domain is accepted, whatever
      surrounds it: `https://bbyosummer.org.example.net` passes as well as
      `https://bbyosummer.org`. */
  lemma LookalikeOriginAccepted(before: seq<char>, after: seq<char>)
    ensures AcceptedOrigin(before + "bbyosummer.org" + after)
  {
    var origin := before + "bbyosummer.org" + after;
    assert origin[|before|..|before| + 14] == "bbyosummer.org";
    assert OccursAt(origin, "bbyosummer.org", |before|);
  }
}
