/**
 * The key-driven edit state machine of `run_app`: which buffer a key
 * clears, extends or shortens, and which input mode comes next. `Step` is
 * the effect of one key press on the mode and the three buffers; `Session`
 * is the effect of a run of presses, up to the one that quits.
 */
module EditMachine {
  import opened Suggestion

  datatype InputMode = Normal | EditingSource | EditingRegex | EditingReplace

  /** The key codes the dispatch tells apart; `OtherKey` is every other code (arrows, F-keys, ...). */
  datatype KeyCode = Char(c: char) | Backspace | Enter | Esc | Tab | OtherKey

  datatype KeyEventKind = Press | Repeat | Release

  datatype KeyEvent = KeyEvent(code: KeyCode, kind: KeyEventKind)

  /** The three editable buffers. */
  datatype Field = Source | Regex | Replace

  /** The part of the application state that key presses change. */
  datatype Editor = Editor(mode: InputMode, sourceText: string, regexInput: string, replaceInput: string)
  {
    function Buffer(f: Field): string {
      match f
      case Source => sourceText
      case Regex => regexInput
      case Replace => replaceInput
    }

    function WithBuffer(f: Field, s: string): (e: Editor)
      ensures e.mode == mode && e.Buffer(f) == s
      ensures forall g :: g != f ==> e.Buffer(g) == Buffer(g)
    {
      match f
      case Source => this.(sourceText := s)
      case Regex => this.(regexInput := s)
      case Replace => this.(replaceInput := s)
    }
  }

  /** The mode in which `f` receives the typed characters. */
  function EditingMode(f: Field): InputMode {
    match f
    case Source => EditingSource
    case Regex => EditingRegex
    case Replace => EditingReplace
  }

  /** The key that, in `Normal`, starts editing `f` afresh. */
  function SelectKey(f: Field): char {
    match f
    case Source => 's'
    case Regex => 'r'
    case Replace => 't'
  }

  /** `String::pop`: the last character goes; an empty text stays empty. */
  function Pop(s: string): (r: string)
    ensures s == [] ==> r == []
    ensures s != [] ==> r + [s[|s| - 1]] == s
  {
    if s == [] then [] else s[..|s| - 1]
  }

  /** The press that ends the session: 'q' in `Normal`. */
  predicate Quits(e: Editor, code: KeyCode) {
    e.mode == Normal && code == Char('q')
  }

  /** A key pressed while `f` is being edited. */
  function Edit(e: Editor, f: Field, code: KeyCode): Editor {
    match code
    case Esc => e.(mode := Normal)
    case Char(c) => e.WithBuffer(f, e.Buffer(f) + [c])
    case Backspace => e.WithBuffer(f, Pop(e.Buffer(f)))
    case Enter => if f == Source then e.WithBuffer(f, e.Buffer(f) + ['\n']) else e.(mode := Normal)
    case _ => e
  }

  /**
   * One key press. `ai` is what the suggestion command answers if this press
   * runs it (Tab in `Normal`). The quitting press leaves the state as it is.
   */
  function Step(e: Editor, code: KeyCode, ai: ProviderOutcome): Editor {
    match e.mode
    case Normal =>
      if code == Char('s') then e.(mode := EditingSource, sourceText := [])
      else if code == Char('r') then e.(mode := EditingRegex, regexInput := [])
      else if code == Char('t') then e.(mode := EditingReplace, replaceInput := [])
      else if code == Tab then e.(regexInput := SuggestedPattern(ai).GetOr(e.regexInput))
      else e
    case EditingSource => Edit(e, Source, code)
    case EditingRegex => Edit(e, Regex, code)
    case EditingReplace => Edit(e, Replace, code)
  }

  /** The presses `codes` one after another, stopping at the one that quits. */
  function Session(e: Editor, codes: seq<KeyCode>, ai: ProviderOutcome): Editor
    decreases |codes|
  {
    if codes == [] || Quits(e, codes[0]) then e
    else Session(Step(e, codes[0], ai), codes[1..], ai)
  }

  /** The presses that type `w`. */
  function Typed(w: string): (codes: seq<KeyCode>)
    ensures |codes| == |w|
  {
    if w == [] then [] else [Char(w[0])] + Typed(w[1..])
  }

  /** `n` presses of Backspace. */
  function Backspaces(n: nat): (codes: seq<KeyCode>)
    ensures |codes| == n
  {
    if n == 0 then [] else [Backspace] + Backspaces(n - 1)
  }

  /**
   * In `Normal`, 's', 'r' and 't' each empty their own buffer and start
   * editing it; the other two buffers are kept.
   */
  lemma SelectClearsOnlyItsBuffer(e: Editor, f: Field, ai: ProviderOutcome)
    requires e.mode == Normal
    ensures var e' := Step(e, Char(SelectKey(f)), ai);
      e'.mode == EditingMode(f) && e'.Buffer(f) == []
      && forall g :: g != f ==> e'.Buffer(g) == e.Buffer(g)
  {
  }

  /** In `Normal`, every key but 's', 'r', 't' and Tab leaves mode and buffers alone. */
  lemma NormalIgnoresOtherKeys(e: Editor, code: KeyCode, ai: ProviderOutcome)
    requires e.mode == Normal
    requires code != Char('s') && code != Char('r') && code != Char('t') && code != Tab
    ensures Step(e, code, ai) == e
  {
  }

  /** Tab replaces the pattern only when the command supplies one. */
  lemma TabInstallsSuggestion(e: Editor, ai: ProviderOutcome)
    requires e.mode == Normal
    ensures Step(e, Tab, ai) == e.(regexInput := SuggestedPattern(ai).GetOr(e.regexInput))
    ensures SuggestedPattern(ai).None? ==> Step(e, Tab, ai) == e
  {
  }

  /**
   * While `f` is being edited no other buffer changes, and the only mode
   * that can follow is `Normal`.
   */
  lemma EditTouchesOnlyOwnBuffer(e: Editor, f: Field, code: KeyCode, ai: ProviderOutcome)
    requires e.mode == EditingMode(f)
    ensures var e' := Step(e, code, ai);
      (e'.mode == e.mode || e'.mode == Normal)
      && forall g :: g != f ==> e'.Buffer(g) == e.Buffer(g)
  {
  }

  /** A typed character goes to the end of the edited buffer. */
  lemma CharAppends(e: Editor, f: Field, c: char, ai: ProviderOutcome)
    requires e.mode == EditingMode(f)
    ensures Step(e, Char(c), ai) == e.WithBuffer(f, e.Buffer(f) + [c])
  {
  }

  /** Backspace removes the last character of the edited buffer, if it has one. */
  lemma BackspacePops(e: Editor, f: Field, ai: ProviderOutcome)
    requires e.mode == EditingMode(f)
    ensures Step(e, Backspace, ai) == e.WithBuffer(f, Pop(e.Buffer(f)))
  {
  }

  /** Backspace right after a typed character restores the state before it. */
  lemma BackspaceUndoesChar(e: Editor, f: Field, c: char, ai: ProviderOutcome)
    requires e.mode == EditingMode(f)
    ensures Step(Step(e, Char(c), ai), Backspace, ai) == e
  {
    var b := e.Buffer(f);
    assert Pop(b + [c]) == b;
    assert e.WithBuffer(f, b) == e;
  }

  /** Backspace on an empty buffer changes nothing. */
  lemma BackspaceOnEmptyIsNoop(e: Editor, f: Field, ai: ProviderOutcome)
    requires e.mode == EditingMode(f) && e.Buffer(f) == []
    ensures Step(e, Backspace, ai) == e
  {
    assert e.WithBuffer(f, []) == e;
  }

  /** Esc goes back to `Normal` and keeps every buffer. */
  lemma EscKeepsBuffers(e: Editor, ai: ProviderOutcome)
    requires e.mode != Normal
    ensures Step(e, Esc, ai) == e.(mode := Normal)
  {
  }

  /**
   * Enter adds a line break to the source and keeps editing it; in the
   * pattern and the replacement it confirms and goes back to `Normal`.
   */
  lemma EnterByMode(e: Editor, ai: ProviderOutcome)
    requires e.mode != Normal
    ensures e.mode == EditingSource ==> Step(e, Enter, ai) == e.(sourceText := e.sourceText + "\n")
    ensures e.mode != EditingSource ==> Step(e, Enter, ai) == e.(mode := Normal)
  {
  }

  lemma WithBufferLaws(e: Editor, f: Field, x: string, y: string)
    ensures e.WithBuffer(f, e.Buffer(f)) == e
    ensures e.WithBuffer(f, x).WithBuffer(f, y) == e.WithBuffer(f, y)
  {
  }

  /** A press that does not quit is taken, and the rest follow from the new state. */
  lemma SessionCons(e: Editor, k: KeyCode, rest: seq<KeyCode>, ai: ProviderOutcome)
    requires !Quits(e, k)
    ensures Session(e, [k] + rest, ai) == Session(Step(e, k, ai), rest, ai)
  {
    assert ([k] + rest)[0] == k && ([k] + rest)[1..] == rest;
  }

  /** Typing `w` while `f` is edited appends `w` to it; nothing else changes. */
  lemma {:induction false} TypingAppends(e: Editor, f: Field, w: string, rest: seq<KeyCode>, ai: ProviderOutcome)
    requires e.mode == EditingMode(f)
    ensures Session(e, Typed(w) + rest, ai) == Session(e.WithBuffer(f, e.Buffer(f) + w), rest, ai)
    decreases |w|
  {
    if w == [] {
      assert Typed(w) + rest == rest && e.Buffer(f) + w == e.Buffer(f);
      WithBufferLaws(e, f, [], []);
    } else {
      assert Typed(w) + rest == [Char(w[0])] + (Typed(w[1..]) + rest);
      SessionCons(e, Char(w[0]), Typed(w[1..]) + rest, ai);
      var e1 := Step(e, Char(w[0]), ai);
      CharAppends(e, f, w[0], ai);
      TypingAppends(e1, f, w[1..], rest, ai);
      assert e1.Buffer(f) + w[1..] == e.Buffer(f) + w;
      WithBufferLaws(e, f, e.Buffer(f) + [w[0]], e.Buffer(f) + w);
    }
  }

  /** The buffer left by `n` Backspaces. */
  function Erased(b: string, n: nat): string {
    if n <= |b| then b[..|b| - n] else []
  }

  lemma ErasedStep(b: string, n: nat)
    requires n > 0
    ensures Erased(Pop(b), n - 1) == Erased(b, n)
  {
    if b != [] && n <= |b| {
      assert b[..|b| - 1][..|b| - 1 - (n - 1)] == b[..|b| - n];
    }
  }

  /**
   * `n` Backspaces while `f` is edited drop the last `n` characters, or all
   * of them when there are fewer; nothing else changes.
   */
  lemma {:induction false} ErasingDrops(e: Editor, f: Field, n: nat, rest: seq<KeyCode>, ai: ProviderOutcome)
    requires e.mode == EditingMode(f)
    ensures Session(e, Backspaces(n) + rest, ai) == Session(e.WithBuffer(f, Erased(e.Buffer(f), n)), rest, ai)
    decreases n
  {
    var b := e.Buffer(f);
    if n == 0 {
      assert Backspaces(n) + rest == rest && Erased(b, n) == b;
      WithBufferLaws(e, f, [], []);
    } else {
      assert Backspaces(n) + rest == [Backspace] + (Backspaces(n - 1) + rest);
      SessionCons(e, Backspace, Backspaces(n - 1) + rest, ai);
      var e1 := Step(e, Backspace, ai);
      BackspacePops(e, f, ai);
      ErasingDrops(e1, f, n - 1, rest, ai);
      ErasedStep(b, n);
      WithBufferLaws(e, f, Pop(b), Erased(b, n));
    }
  }

  /** Typing a text and then as many Backspaces gives back the state before it. */
  lemma TypeThenEraseIsIdentity(e: Editor, f: Field, w: string, ai: ProviderOutcome)
    requires e.mode == EditingMode(f)
    ensures Session(e, Typed(w) + Backspaces(|w|), ai) == e
  {
    var b := e.Buffer(f);
    TypingAppends(e, f, w, Backspaces(|w|), ai);
    var e1 := e.WithBuffer(f, b + w);
    ErasingDrops(e1, f, |w|, [], ai);
    assert Backspaces(|w|) + [] == Backspaces(|w|);
    assert Erased(b + w, |w|) == b;
    WithBufferLaws(e, f, b + w, b);
  }

  /**
   * Editing is replace-from-scratch: from `Normal`, the select key of `f`,
   * then `w`, then Esc leaves exactly `w` in `f`, whatever was there, with
   * every other buffer kept and the mode back at `Normal`.
   */
  lemma SelectTypeEscape(e: Editor, f: Field, w: string, ai: ProviderOutcome)
    requires e.mode == Normal
    ensures Session(e, [Char(SelectKey(f))] + Typed(w) + [Esc], ai) == e.WithBuffer(f, w)
  {
    var k := Char(SelectKey(f));
    assert [k] + Typed(w) + [Esc] == [k] + (Typed(w) + [Esc]);
    SessionCons(e, k, Typed(w) + [Esc], ai);
    var e1 := Step(e, k, ai);
    SelectClearsOnlyItsBuffer(e, f, ai);
    TypingAppends(e1, f, w, [Esc], ai);
    var e2 := e1.WithBuffer(f, w);
    assert [Esc] == [Esc] + [];
    SessionCons(e2, Esc, [], ai);
    EscKeepsBuffers(e2, ai);
    assert e2.(mode := Normal) == e.WithBuffer(f, w);
  }
}
