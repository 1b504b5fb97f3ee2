/**
  Inline rename of a task title: the Display/Editing state machine of
  `startRenameTask` and `finishRenameTask`, and the `String.prototype.trim`
  applied to the edited text before it is sent.
 */
module Rename {
  import opened Store

  /** The characters `trim` removes: ECMAScript WhiteSpace and LineTerminator. */
  predicate IsSpace(c: char)
  {
    c == '\t' || c == '\n' || c == '\U{000B}' || c == '\U{000C}' || c == '\r' || c == ' ' ||
    c == '\U{00A0}' || c == '\U{1680}' || ('\U{2000}' <= c <= '\U{200A}') ||
    c == '\U{2028}' || c == '\U{2029}' || c == '\U{202F}' || c == '\U{205F}' ||
    c == '\U{3000}' || c == '\U{FEFF}'
  }

  /** `s` without its leading white space. */
  function TrimStart(s: string): (r: string)
    ensures |r| <= |s| && r == s[|s| - |r|..]
    ensures forall k :: 0 <= k < |s| - |r| ==> IsSpace(s[k])
    ensures r == [] || !IsSpace(r[0])
    decreases |s|
  {
    if s != [] && IsSpace(s[0]) then TrimStart(s[1..]) else s
  }

  /** `s` without its trailing white space. */
  function TrimEnd(s: string): (r: string)
    ensures |r| <= |s| && r == s[..|r|]
    ensures forall k :: |r| <= k < |s| ==> IsSpace(s[k])
    ensures r == [] || !IsSpace(r[|r| - 1])
    decreases |s|
  {
    if s != [] && IsSpace(s[|s| - 1]) then TrimEnd(s[..|s| - 1]) else s
  }

  /** `s.trim()`. */
  function Trim(s: string): string
  {
    TrimEnd(TrimStart(s))
  }

  /** A trimmed string neither starts nor ends with white space. */
  predicate Trimmed(s: string)
  {
    s == [] || (!IsSpace(s[0]) && !IsSpace(s[|s| - 1]))
  }

  /** `trim` leaves neither leading nor trailing white space. */
  lemma TrimIsTrimmed(s: string)
    ensures Trimmed(Trim(s))
  {
    var a := TrimStart(s);
    var r := TrimEnd(a);
    if r != [] {
      assert r[0] == a[0];
    }
  }

  /**
    `trim` yields a slice of `s`, and everything it cuts from either end is
    white space.
   */
  lemma TrimSlice(s: string)
    ensures exists i, j :: 0 <= i <= j <= |s| && Trim(s) == s[i..j] &&
              (forall k :: 0 <= k < i ==> IsSpace(s[k])) && (forall k :: j <= k < |s| ==> IsSpace(s[k]))
  {
    var a := TrimStart(s);
    var r := TrimEnd(a);
    var i := |s| - |a|;
    var j := i + |r|;
    assert r == s[i..j] by {
      assert a == s[i..] && r == a[..|r|];
    }
    assert forall k :: 0 <= k < i ==> IsSpace(s[k]);
    assert forall k :: j <= k < |s| ==> IsSpace(s[k]) by {
      forall k | j <= k < |s| ensures IsSpace(s[k]) {
        assert s[k] == a[k - i];
      }
    }
  }

  /** The text trims to nothing exactly when it is all white space. */
  lemma TrimEmptyIff(s: string)
    ensures Trim(s) == [] <==> forall k :: 0 <= k < |s| ==> IsSpace(s[k])
  {
    var a := TrimStart(s);
    if Trim(s) == [] {
      assert a == [];
    } else {
      assert a != [];
      assert a[0] == s[|s| - |a|];
    }
  }

  /** Trimming twice is trimming once. */
  lemma TrimIdempotent(s: string)
    ensures Trim(Trim(s)) == Trim(s)
  {
    var r := Trim(s);
    TrimIsTrimmed(s);
    assert TrimStart(r) == r;
    assert TrimEnd(r) == r;
  }

  /** What the user sees for one task title: the span, or the input that replaced it. */
  datatype EditState =
    | Display(text: string)
    | Editing(original: string, draft: string)

  /** The listeners of the title span and of the input that replaces it. */
  datatype Event =
    | Click            // the span's onclick: startRenameTask
    | Type(value: string)  // the user edits the input's value
    | Enter            // keydown Enter: finishRenameTask
    | Blur             // blur: finishRenameTask
    | Escape           // keydown Escape: put the original span back

  /**
    One event: the state afterwards and the title sent to POST /tasks/rename,
    if any. Events aimed at an element that is not on screen change nothing.
   */
  function Step(s: EditState, e: Event): (EditState, Option<string>)
  {
    match (s, e)
    case (Display(t), Click) => (Editing(t, t), None)
    case (Editing(o, _), Type(v)) => (Editing(o, v), None)
    case (Editing(o, d), Enter) => Finish(s)
    case (Editing(o, d), Blur) => Finish(s)
    case (Editing(o, _), Escape) => (Display(o), None)
    case _ => (s, None)
  }

  /** `finishRenameTask`: a title that trims to nothing is ignored and the input stays. */
  function Finish(s: EditState): (EditState, Option<string>)
    requires s.Editing?
  {
    var title := Trim(s.draft);
    if title == [] then (s, None) else (Display(title), Some(title))
  }

  /** The text the element stands for: the span's text, or the title it will restore on Escape. */
  function Shown(s: EditState): string
  {
    match s
    case Display(t) => t
    case Editing(o, _) => o
  }

  /** The final state and the titles sent, in order, after a run of events. */
  function Run(s: EditState, es: seq<Event>): (EditState, seq<string>)
    decreases |es|
  {
    if es == [] then (s, [])
    else
      var step := Step(s, es[0]);
      var rest := Run(step.0, es[1..]);
      (rest.0, (if step.1.Some? then [step.1.value] else []) + rest.1)
  }

  /** A single event sends at most the trimmed draft, and only when it is not blank. */
  lemma StepSends(s: EditState, e: Event)
    ensures Step(s, e).1.Some? ==>
              s.Editing? && (e == Enter || e == Blur) &&
              Step(s, e).1.value == Trim(s.draft) != [] && Trimmed(Step(s, e).1.value)
    ensures Shown(Step(s, e).0) == if Step(s, e).1.Some? then Step(s, e).1.value else Shown(s)
  {
    match s {
      case Display(_) =>
      case Editing(_, draft) =>
        if e == Enter || e == Blur {
          TrimIsTrimmed(draft);
          assert Step(s, e) == Finish(s);
        } else {
          assert Step(s, e).1 == None;
        }
    }
  }

  /** Over any run of events, every title sent to the server is non-blank and trimmed. */
  lemma {:induction false} RunSendsTrimmedTitles(s: EditState, es: seq<Event>)
    ensures forall k :: 0 <= k < |Run(s, es).1| ==> Run(s, es).1[k] != [] && Trimmed(Run(s, es).1[k])
    decreases |es|
  {
    if es != [] {
      var step := Step(s, es[0]);
      StepSends(s, es[0]);
      RunSendsTrimmedTitles(step.0, es[1..]);
    }
  }

  /**
    After any run of events, the title on screen (or the one Escape would
    restore) is the last title sent, or the starting one when none was sent.
   */
  lemma {:induction false} RunShowsLastSent(s: EditState, es: seq<Event>)
    ensures Shown(Run(s, es).0) == if Run(s, es).1 == [] then Shown(s) else Run(s, es).1[|Run(s, es).1| - 1]
    decreases |es|
  {
    if es != [] {
      var step := Step(s, es[0]);
      StepSends(s, es[0]);
      RunShowsLastSent(step.0, es[1..]);
    }
  }

  /**
    Escape while editing puts the original title back and sends nothing,
    whatever was typed. This assumes no blur follows the removal of the input.
   */
  lemma {:induction false} EscapeRestores(original: string, draft: string, es: seq<Event>)
    requires forall k :: 0 <= k < |es| ==> es[k].Type?
    ensures Run(Editing(original, draft), es + [Escape]) == (Display(original), [])
    decreases |es|
  {
    if es == [] {
      var last: seq<Event> := [Escape];
      assert es + [Escape] == last && last[1..] == [];
      assert Run(Editing(original, draft), last).1 == [];
    } else {
      assert (es + [Escape])[0] == es[0];
      assert (es + [Escape])[1..] == es[1..] + [Escape];
      EscapeRestores(original, es[0].value, es[1..]);
    }
  }

  /**
    One task title on screen. Its handlers call the store for a commit only;
    they never touch the client's mirror, so the mirror keeps the old title.
   */
  class TitleEditor {
    const id: int
    var state: EditState

    /** `addTaskToColumn` shows the title in a span. */
    constructor (id: int, title: string)
      ensures this.id == id && state == Display(title)
    {
      this.id := id;
      state := Display(title);
    }

    /** `startRenameTask`: the span is replaced by an input holding its text. */
    method Click()
      modifies this
      ensures state == Step(old(state), Event.Click).0
    {
      if state.Display? {
        state := Editing(state.text, state.text);
      }
    }

    /** The user types into the input. */
    method Type(value: string)
      modifies this
      ensures state == Step(old(state), Event.Type(value)).0
    {
      if state.Editing? {
        state := Editing(state.original, value);
      }
    }

    /** Enter or blur, both `finishRenameTask`: a non-blank title is sent trimmed and shown. */
    method Commit(server: Board)
      requires server.Valid()
      modifies this, server
      ensures server.Valid() && server.columns == old(server.columns)
      ensures state == Step(old(state), Enter).0
      ensures server.tasks ==
                match Step(old(state), Enter).1
                case None => old(server.tasks)
                case Some(title) => RenameRows(old(server.tasks), id, title)
    {
      if state.Editing? {
        var title := Trim(state.draft);
        if title != [] {
          server.RenameTask(id, title);
          state := Display(title);
        }
      }
    }

    /**
      Escape: the original span comes back. Nothing is sent: no store is in the
      method's frame.
     */
    method Escape()
      modifies this
      ensures state == Step(old(state), Event.Escape).0
    {
      if state.Editing? {
        state := Display(state.original);
      }
    }
  }
}
