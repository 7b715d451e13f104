/**
 * The application state `App` and its in-place updates: `apply_transform`,
 * `suggest_ai` and the body of `run_app`'s event loop, which dispatches
 * one key event. Terminal I/O, polling and drawing are not modelled; the
 * event and the suggestion command's answer arrive as parameters.
 */
module RegexApp {
  import opened Wrappers
  import Text
  import opened TransformEngine
  import opened Suggestion
  import opened EditMachine

  const DefaultSource := "Praliné saber no ocupa el lugar de argentino."
  const DefaultStatus := "Listo. 's': Fuente, 'r': Regex, 't': Reemplazar, 'TAB': IA"

  class App<Re> {
    /** The regex library every transform goes through. */
    const engine: Engine<Re>

    var sourceText: string
    var regexInput: string
    var replaceInput: string
    var outputText: string
    var inputMode: InputMode
    var statusMessage: string

    /** Mode and buffers, the part key presses act on. */
    function State(): Editor
      reads this
    {
      Editor(inputMode, sourceText, regexInput, replaceInput)
    }

    /** The output preview is up to date with the three buffers. */
    ghost predicate Valid()
      reads this
    {
      outputText == Transform(engine, sourceText, regexInput, replaceInput)
    }

    /** `App::default`: the sample source, no pattern, no replacement, an empty preview. */
    constructor (engine: Engine<Re>)
      ensures this.engine == engine
      ensures State() == Editor(Normal, DefaultSource, [], [])
      ensures outputText == [] && statusMessage == DefaultStatus
    {
      this.engine := engine;
      sourceText := DefaultSource;
      regexInput := [];
      replaceInput := [];
      outputText := [];
      inputMode := Normal;
      statusMessage := DefaultStatus;
    }

    /** `apply_transform`: recompute the preview; only the preview changes. */
    method ApplyTransform()
      modifies this
      ensures Valid()
      ensures State() == old(State()) && statusMessage == old(statusMessage)
    {
      if regexInput == [] {
        outputText := sourceText;
        return;
      }
      match engine.compile(regexInput)
      case Err(message) =>
        outputText := RegexErrorPrefix + message;
      case Ok(re) =>
        if replaceInput == [] {
          var matches := engine.findAll(re, sourceText);
          if matches == [] {
            outputText := NoMatches;
          } else {
            outputText := Text.Join(matches, MatchSeparator);
          }
        } else {
          outputText := engine.replaceAll(re, sourceText, replaceInput);
        }
    }

    /**
     * `suggest_ai` once the command has answered `ai`: a usable answer
     * becomes the pattern and the preview is recomputed; otherwise pattern
     * and preview are kept. The status line reports which case it was.
     */
    method SuggestAi(ai: ProviderOutcome)
      modifies this
      ensures statusMessage == SuggestStatus(ai)
      ensures inputMode == old(inputMode) && sourceText == old(sourceText) && replaceInput == old(replaceInput)
      ensures match SuggestedPattern(ai)
        case Some(p) => regexInput == p && Valid()
        case None => regexInput == old(regexInput) && outputText == old(outputText)
    {
      statusMessage := Consulting;
      match ai
      case Exited(success, out, err) =>
        if success {
          var suggestion := Text.Trim(out);
          if suggestion != [] {
            regexInput := Clean(suggestion);
            statusMessage := Applied;
            ApplyTransform();
          } else {
            statusMessage := EmptyReply;
          }
        } else {
          statusMessage := ExitErrorPrefix + (if |err| <= StderrShown then err else err[..StderrShown]);
        }
      case SpawnFailed(message) =>
        statusMessage := SpawnErrorPrefix + message;
    }

    /**
     * One iteration of `run_app` that read the key event `key`; `ai` is the
     * suggestion command's answer should this press run it. Returns whether
     * the session ends. Anything but a press is skipped; 'q' in `Normal`
     * ends the session before the preview is recomputed; every other press
     * acts as `Step` says and leaves the preview up to date.
     */
    method HandleKey(key: KeyEvent, ai: ProviderOutcome) returns (quit: bool)
      modifies this
      ensures quit == (key.kind == Press && Quits(old(State()), key.code))
      ensures key.kind != Press || quit ==> unchanged(this)
      ensures key.kind == Press && !quit ==> State() == Step(old(State()), key.code, ai) && Valid()
      ensures key.kind == Press && !quit ==>
        statusMessage == if old(inputMode) == Normal && key.code == Tab then SuggestStatus(ai) else old(statusMessage)
    {
      if key.kind != Press {
        return false;
      }
      ghost var before := State();
      match inputMode {
        case Normal =>
          match key.code {
            case Char(c) =>
              if c == 'q' {
                return true;
              } else if c == 's' {
                inputMode := EditingSource;
                sourceText := [];
              } else if c == 'r' {
                inputMode := EditingRegex;
                regexInput := [];
              } else if c == 't' {
                inputMode := EditingReplace;
                replaceInput := [];
              }
            case Tab => SuggestAi(ai);
            case _ =>
          }
          assert State() == Step(before, key.code, ai);
        case EditingSource =>
          match key.code {
            case Esc => inputMode := Normal;
            case Char(c) => sourceText := sourceText + [c];
            case Backspace => if sourceText != [] { sourceText := sourceText[..|sourceText| - 1]; }
            case Enter => sourceText := sourceText + ['\n'];
            case _ =>
          }
          assert State() == Edit(before, Source, key.code);
        case EditingRegex =>
          match key.code {
            case Esc => inputMode := Normal;
            case Char(c) => regexInput := regexInput + [c];
            case Backspace => if regexInput != [] { regexInput := regexInput[..|regexInput| - 1]; }
            case Enter => inputMode := Normal;
            case _ =>
          }
          assert State() == Edit(before, Regex, key.code);
        case EditingReplace =>
          match key.code {
            case Esc => inputMode := Normal;
            case Char(c) => replaceInput := replaceInput + [c];
            case Backspace => if replaceInput != [] { replaceInput := replaceInput[..|replaceInput| - 1]; }
            case Enter => inputMode := Normal;
            case _ =>
          }
          assert State() == Edit(before, Replace, key.code);
      }
      ApplyTransform();
      quit := false;
    }
  }

  /** `main` up to the event loop: the default state, then one transform. */
  method Launch<Re>(engine: Engine<Re>) returns (app: App<Re>)
    ensures fresh(app) && app.engine == engine && app.Valid()
    ensures app.State() == Editor(Normal, DefaultSource, [], [])
    ensures app.outputText == DefaultSource && app.statusMessage == DefaultStatus
  {
    app := new App(engine);
    app.ApplyTransform();
  }
}
