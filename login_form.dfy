/**
 * The field-editing and submission rules of LoginScreen.input_credentials
 * (rating.py): two text fields with length caps, an optional active field,
 * and a submission that hands back both fields stripped of whitespace.
 * Hit-testing of the mouse position against the on-screen rectangles is
 * abstracted to the `Target` that was clicked.
 */
module LoginForm {
  import opened Wrappers

  /** The most characters typing can bring each field to. */
  const NICKNAME_LIMIT: nat := 15
  const PASSWORD_LIMIT: nat := 20

  datatype Field = Nickname | Password

  /** The editing state: both texts and the active field (None: no field active). */
  datatype Form = Form(nickname: string, password: string, active: Option<Field>)

  datatype Key = Escape | Return | Backspace | Tab | OtherKey

  /** What a left click landed on, checked in this order in the source. */
  datatype Target = NicknameBox | PasswordBox | LoginButton | BackButton | Elsewhere

  /** A key press carries the text it types (`event.unicode`). */
  datatype Event = Quit | KeyDown(key: Key, unicode: string) | MouseDown(button: int, target: Target) | OtherEvent

  /**
   * What handling events leads to: still editing (`complaint` when a
   * submission was refused because a field is blank), credentials handed back,
   * back to the menu, or the window closed.
   */
  datatype Outcome = Editing(form: Form, complaint: bool) | Submitted(nickname: string, password: string) | BackToMenu | Closed

  const InitialForm: Form := Form("", "", None)

  /** Python's str.isspace, the characters str.strip removes. */
  predicate IsSpace(c: char)
  {
    || '\t' <= c <= '\r' || '\U{1c}' <= c <= ' ' || c == '\U{85}' || c == '\U{a0}' || c == '\U{1680}'
    || '\U{2000}' <= c <= '\U{200a}' || c == '\U{2028}' || c == '\U{2029}' || c == '\U{202f}'
    || c == '\U{205f}' || c == '\U{3000}'
  }

  predicate AllSpace(s: string)
  {
    forall i :: 0 <= i < |s| ==> IsSpace(s[i])
  }

  /** `r` is the slice of `s` that starts at index `i`. */
  predicate OccursAt(r: string, s: string, i: int)
  {
    0 <= i <= |s| && r <= s[i..]
  }

  /** `r` is the slice of `s` at index `i`, with only whitespace before and after it. */
  predicate PaddedAt(r: string, s: string, i: int)
  {
    OccursAt(r, s, i) && AllSpace(s[..i]) && AllSpace(s[i + |r|..])
  }

  /** `s` without its leading whitespace. */
  function TrimStart(s: string): (r: string)
    ensures |r| <= |s| && r == s[|s| - |r|..]
    ensures AllSpace(s[..|s| - |r|])
    ensures r == [] || !IsSpace(r[0])
  {
    if s != [] && IsSpace(s[0]) then
      var r := TrimStart(s[1..]);
      assert s[..|s| - |r|] == [s[0]] + s[1..][..|s| - 1 - |r|];
      r
    else s
  }

  /** `s` without its trailing whitespace. */
  function TrimEnd(s: string): (r: string)
    ensures |r| <= |s| && r == s[..|r|]
    ensures AllSpace(s[|r|..])
    ensures r == [] || !IsSpace(r[|r| - 1])
  {
    if s != [] && IsSpace(s[|s| - 1]) then
      var r := TrimEnd(s[..|s| - 1]);
      assert s[|r|..] == s[..|s| - 1][|r|..] + [s[|s| - 1]];
      r
    else s
  }

  /** Trimming both ends leaves a slice of `s`, blank exactly when `s` is all whitespace. */
  lemma TrimBoth(s: string)
    ensures var r := TrimEnd(TrimStart(s));
      && OccursAt(r, s, |s| - |TrimStart(s)|)
      && (r == [] <==> AllSpace(s))
  {
    var t := TrimStart(s);
    var r := TrimEnd(t);
    var i := |s| - |t|;
    assert t == s[i..];
    if r == [] {
      assert t[|r|..] == t;
      forall k | 0 <= k < |s|
        ensures IsSpace(s[k])
      {
        if k < i {
          assert s[k] == s[..i][k];
        } else {
          assert s[k] == t[k - i];
        }
      }
    } else {
      assert r[0] == t[0] == s[i];
    }
  }

  /** What trimming both ends removes is whitespace. */
  lemma TrimPadded(s: string)
    ensures PaddedAt(TrimEnd(TrimStart(s)), s, |s| - |TrimStart(s)|)
  {
    var t := TrimStart(s);
    var r := TrimEnd(t);
    var i := |s| - |t|;
    assert t == s[i..];
    assert r == t[..|r|] && r <= s[i..];
    var tail := s[i + |r|..];
    forall k | 0 <= k < |tail|
      ensures IsSpace(tail[k])
    {
      assert tail[k] == t[|r|..][k];
    }
  }

  /**
   * Python's str.strip(): the part of `s` between its leading and trailing
   * whitespace, empty exactly when `s` is all whitespace.
   */
  function Strip(s: string): (r: string)
    ensures |r| <= |s|
    ensures PaddedAt(r, s, |s| - |TrimStart(s)|)
    ensures r == [] || (!IsSpace(r[0]) && !IsSpace(r[|r| - 1]))
    ensures r == [] <==> AllSpace(s)
  {
    TrimBoth(s);
    TrimPadded(s);
    var t := TrimStart(s);
    var r := TrimEnd(t);
    assert r != [] ==> r[0] == t[0];
    r
  }

  /** str.isprintable on the typed text, given the per-character rule. */
  predicate PrintableText(text: string, printable: char -> bool)
  {
    forall i :: 0 <= i < |text| ==> printable(text[i])
  }

  /** s[:-1] */
  function DropLast(s: string): (r: string)
    ensures s == [] ==> r == []
    ensures s != [] ==> r + [s[|s| - 1]] == s
  {
    if s == [] then [] else s[..|s| - 1]
  }

  /** Both fields within their caps. */
  predicate Bounded(f: Form)
  {
    |f.nickname| <= NICKNAME_LIMIT && |f.password| <= PASSWORD_LIMIT
  }

  /** Enter / the login button: hand back the stripped fields, or complain when one is blank. */
  function Submit(f: Form): (r: Outcome)
    ensures r.Submitted? <==> Strip(f.nickname) != [] && Strip(f.password) != []
    ensures r.Submitted? ==> r.nickname == Strip(f.nickname) && r.password == Strip(f.password)
    ensures !r.Submitted? ==> r == Editing(f, true)
  {
    var nickname, password := Strip(f.nickname), Strip(f.password);
    if nickname != [] && password != [] then Submitted(nickname, password) else Editing(f, true)
  }

  /** Typing `text` into the active field, when that field is under its cap. */
  function Typed(f: Form, text: string): (r: Form)
    ensures r.active == f.active
    ensures r.nickname == f.nickname || r.nickname == f.nickname + text
    ensures r.password == f.password || r.password == f.password + text
  {
    if f.active == Some(Nickname) && |f.nickname| < NICKNAME_LIMIT then f.(nickname := f.nickname + text)
    else if f.active == Some(Password) && |f.password| < PASSWORD_LIMIT then f.(password := f.password + text)
    else f
  }

  /** The handling of one event by input_credentials. */
  function Step(f: Form, e: Event, printable: char -> bool): Outcome
  {
    match e
    case Quit => Closed
    case KeyDown(key, text) => KeyPress(f, key, text, printable)
    case MouseDown(button, target) => Click(f, button, target)
    case OtherEvent => Editing(f, false)
  }

  /** A key press typing `text`; editing keys act only while a field is active. */
  function KeyPress(f: Form, key: Key, text: string, printable: char -> bool): Outcome
  {
    if key == Escape then BackToMenu
    else if f.active == None then Editing(f, false)
    else if key == Return then Submit(f)
    else if key == Backspace then (
      match f.active.value
      case Nickname => Editing(f.(nickname := DropLast(f.nickname)), false)
      case Password => Editing(f.(password := DropLast(f.password)), false))
    else if key == Tab then
      Editing(f.(active := Some(if f.active == Some(Nickname) then Password else Nickname)), false)
    else if PrintableText(text, printable) then Editing(Typed(f, text), false)
    else Editing(f, false)
  }

  /** A mouse click; only the left button (1) does anything. */
  function Click(f: Form, button: int, target: Target): Outcome
  {
    if button != 1 then Editing(f, false)
    else
      match target
      case NicknameBox => Editing(f.(active := Some(Nickname)), false)
      case PasswordBox => Editing(f.(active := Some(Password)), false)
      case LoginButton => Submit(f)
      case BackButton => BackToMenu
      case Elsewhere => Editing(f.(active := None), false)
  }

  /**
   * What one event can do: credentials handed back are the non-blank
   * stripped fields, only the active field's text changes, and a key press
   * of at most one character keeps both fields within their caps.
   */
  lemma StepFacts(f: Form, e: Event, printable: char -> bool)
    ensures var r := Step(f, e, printable);
      && (r.Submitted? ==> r.nickname == Strip(f.nickname) && r.password == Strip(f.password))
      && (r.Submitted? ==> r.nickname != [] && r.password != [])
      && (r.Editing? && f.active != Some(Nickname) ==> r.form.nickname == f.nickname)
      && (r.Editing? && f.active != Some(Password) ==> r.form.password == f.password)
      && (r.Editing? && Bounded(f) && (e.KeyDown? ==> |e.unicode| <= 1) ==> Bounded(r.form))
  {
    match e
    case KeyDown(key, text) =>
      if key != Escape && f.active.Some? && key == Return {
        assert KeyPress(f, key, text, printable) == Submit(f);
      }
    case MouseDown(button, target) =>
      if button == 1 && target == LoginButton {
        assert Click(f, button, target) == Submit(f);
      }
    case _ =>
  }

  /** Handling a stream of events: stop at the first that ends the screen. */
  function Run(f: Form, events: seq<Event>, printable: char -> bool): Outcome
    decreases |events|
  {
    if events == [] then Editing(f, false)
    else
      match Step(f, events[0], printable)
      case Editing(g, _) => Run(g, events[1..], printable)
      case other => other
  }

  /** Typed texts of at most one character (what a key press produces). */
  predicate SingleCharacters(events: seq<Event>)
  {
    forall i :: 0 <= i < |events| && events[i].KeyDown? ==> |events[i].unicode| <= 1
  }

  /**
   * From a bounded form, handling key presses of at most one character never
   * lets a field exceed its cap, and credentials handed back are non-blank
   * and within the caps.
   */
  lemma {:induction false} RunBounded(f: Form, events: seq<Event>, printable: char -> bool)
    requires Bounded(f) && SingleCharacters(events)
    ensures var r := Run(f, events, printable);
      && (r.Editing? ==> Bounded(r.form))
      && (r.Submitted? ==> && r.nickname != [] && r.password != []
                           && |r.nickname| <= NICKNAME_LIMIT && |r.password| <= PASSWORD_LIMIT)
    decreases |events|
  {
    if events != [] {
      var s := Step(f, events[0], printable);
      StepFacts(f, events[0], printable);
      if s.Editing? {
        assert SingleCharacters(events[1..]) by {
          forall i | 0 <= i < |events[1..]| && events[1..][i].KeyDown?
            ensures |events[1..][i].unicode| <= 1
          {
            assert events[1..][i] == events[i + 1];
          }
        }
        RunBounded(s.form, events[1..], printable);
      }
    }
  }

  /** Stripping is idempotent. */
  lemma StripStripped(s: string)
    ensures Strip(Strip(s)) == Strip(s)
  {
    var r := Strip(s);
    if r != [] {
      assert TrimStart(r) == r;
      assert TrimEnd(r) == r;
    } else {
      assert TrimStart(r) == [];
    }
  }

  /** Backspace removes the last character of the active field, and only of it. */
  lemma BackspaceEditsActive(f: Form, text: string, printable: char -> bool)
    requires f.active.Some?
    ensures var r := Step(f, KeyDown(Backspace, text), printable);
      && r.Editing? && r.form.active == f.active
      && (f.active == Some(Nickname) ==> r.form == f.(nickname := DropLast(f.nickname)))
      && (f.active == Some(Password) ==> r.form == f.(password := DropLast(f.password)))
  {
  }

  /** Tab swaps the active field and changes no text. */
  lemma TabSwapsField(f: Form, text: string, printable: char -> bool)
    requires f.active.Some?
    ensures var r := Step(f, KeyDown(Tab, text), printable);
      && r.Editing? && r.form.nickname == f.nickname && r.form.password == f.password
      && r.form.active.Some? && r.form.active != f.active
  {
  }

  /**
   * A printable key press appends its text to the active field exactly when
   * that field is under its cap; otherwise the form is unchanged.
   */
  lemma TypingAppends(f: Form, text: string, printable: char -> bool)
    requires PrintableText(text, printable)
    ensures var r := Step(f, KeyDown(OtherKey, text), printable);
      && r.Editing? && r.form.active == f.active
      && (r.form.nickname == f.nickname + text && text != [] <==>
            f.active == Some(Nickname) && |f.nickname| < NICKNAME_LIMIT && text != [])
      && (r.form.password == f.password + text && text != [] <==>
            f.active == Some(Password) && |f.password| < PASSWORD_LIMIT && text != [])
      && ((!(f.active == Some(Nickname) && |f.nickname| < NICKNAME_LIMIT) &&
           !(f.active == Some(Password) && |f.password| < PASSWORD_LIMIT)) ==> r.form == f)
  {
    var r := Step(f, KeyDown(OtherKey, text), printable);
    if text != [] {
      assert |f.nickname + text| != |f.nickname|;
      assert |f.password + text| != |f.password|;
    }
  }

  /** Enter submits only from an active field and only when both stripped fields are non-blank. */
  lemma EnterSubmits(f: Form, text: string, printable: char -> bool)
    ensures Step(f, KeyDown(Return, text), printable).Submitted? <==>
      f.active.Some? && Strip(f.nickname) != [] && Strip(f.password) != []
  {
    assert Step(f, KeyDown(Return, text), printable) == KeyPress(f, Return, text, printable);
    if f.active.Some? {
      assert KeyPress(f, Return, text, printable) == Submit(f);
    }
  }

  /** The login button submits from any field, when both stripped fields are non-blank. */
  lemma ButtonSubmits(f: Form, printable: char -> bool)
    ensures Step(f, MouseDown(1, LoginButton), printable).Submitted? <==>
      Strip(f.nickname) != [] && Strip(f.password) != []
  {
    assert Step(f, MouseDown(1, LoginButton), printable) == Click(f, 1, LoginButton) == Submit(f);
  }

  /**
   * input_credentials as the source writes it: a loop over the events that
   * updates the two texts and the active field in place.
   */
  method InputCredentials(events: seq<Event>, printable: char -> bool) returns (outcome: Outcome)
    ensures outcome == Run(InitialForm, events, printable)
  {
    var nickname, password := "", "";
    var active: Option<Field> := None;
    var i := 0;
    while i < |events|
      invariant 0 <= i <= |events|
      invariant Run(InitialForm, events, printable) == Run(Form(nickname, password, active), events[i..], printable)
    {
      ghost var f := Form(nickname, password, active);
      ghost var step := Step(f, events[i], printable);
      assert events[i..][0] == events[i] && events[i..][1..] == events[i + 1..];
      assert Run(f, events[i..], printable) ==
        match step
        case Editing(g, _) => Run(g, events[i + 1..], printable)
        case other => other;
      match events[i] {
        case Quit =>
          return Closed;
        case KeyDown(key, text) =>
          if key == Escape {
            return BackToMenu;
          } else if active.Some? && key == Return {
            assert step == KeyPress(f, key, text, printable) == Submit(f);
            var n, p := Strip(nickname), Strip(password);
            if n != [] && p != [] {
              return Submitted(n, p);
            }
          } else if active.Some? && key == Backspace {
            if active == Some(Nickname) {
              nickname := DropLast(nickname);
            } else if active == Some(Password) {
              password := DropLast(password);
            }
          } else if active.Some? && key == Tab {
            active := Some(if active == Some(Nickname) then Password else Nickname);
          } else if active.Some? {
            if PrintableText(text, printable) {
              if active == Some(Nickname) && |nickname| < NICKNAME_LIMIT {
                nickname := nickname + text;
              } else if active == Some(Password) && |password| < PASSWORD_LIMIT {
                password := password + text;
              }
            }
          }
        case MouseDown(button, target) =>
          if button == 1 {
            if target == NicknameBox {
              active := Some(Nickname);
            } else if target == PasswordBox {
              active := Some(Password);
            } else if target == LoginButton {
              assert step == Click(f, button, target) == Submit(f);
              var n, p := Strip(nickname), Strip(password);
              if n != [] && p != [] {
                return Submitted(n, p);
              }
            } else if target == BackButton {
              return BackToMenu;
            } else {
              active := None;
            }
          }
        case OtherEvent =>
      }
      assert step.Editing? && step.form == Form(nickname, password, active);
      i := i + 1;
    }
    return Editing(Form(nickname, password, active), false);
  }
}
