/** The state rule of `PasswordGenApp`: the output box holds at most one
    password, Generate replaces it, and Copy and Save act only on a box whose
    text, stripped of surrounding whitespace, is non-empty. Dialogs, the
    clipboard and the file write are returned as values rather than performed. */
module PasswordGenApp {
  import opened Wrappers
  import opened Base64
  import opened Text
  import opened PasswordGen

  /** The file Save overwrites, in the working directory. */
  const SaveFileName: string := "generated_password.txt"

  /** What the output box shows: `None` before the first successful generation. */
  datatype App = App(current: Option<string>)

  /** The application as it starts, with an empty output box. */
  const Initial: App := App(None)

  /** The message box a handler raises, or `Shown` for a silent display update. */
  datatype Notice =
    | Shown
    | InvalidInputError
    | InvalidLengthWarning
    | CopiedInfo
    | SavedInfo
    | NoPasswordWarning

  /** The outside-world action a handler requests. */
  datatype Effect =
    | NoEffect
    | SetClipboard(text: string)
    | WriteFile(path: string, contents: string)

  /** The state after a handler, with what it shows and what it does. */
  datatype Reply = Reply(app: App, notice: Notice, effect: Effect)

  /** The text tkinter returns for the whole output box, which always ends in a newline. */
  function BoxText(app: App): (text: string)
    ensures |text| > 0 && text[|text| - 1] == '\n'
    ensures text[..|text| - 1] == app.current.GetOr("")
    ensures app.current.None? ==> text == "\n"
  {
    app.current.GetOr("") + "\n"
  }

  /** The password as Copy and Save read it: the box text, stripped. It is
      empty exactly when no password with a non-whitespace character is shown. */
  function ShownPassword(app: App): (password: string)
    ensures password == [] <==> !(app.current.Some? && HasNonSpace(app.current.value))
  {
    BoxTextNonSpace(app);
    Strip(BoxText(app))
  }

  /** The Generate button. On an error the state is untouched and a message is
      raised; on success the box holds the new password and nothing else,
      whatever it held before. */
  function OnGenerate(app: App, input: Option<int>, bytes: seq<uint8>): (r: Reply)
    requires input.Some? && ValidLength(input.value) ==> |bytes| == BytesNeeded(input.value)
    ensures r.effect == NoEffect
    ensures input.None? ==> r == Reply(app, InvalidInputError, NoEffect)
    ensures input.Some? && !ValidLength(input.value) ==> r == Reply(app, InvalidLengthWarning, NoEffect)
    ensures input.Some? && ValidLength(input.value) ==>
      r.app == App(Some(Derive(input.value, bytes))) && r.notice == Shown
  {
    match Generate(input, bytes)
    case Success(password) => Reply(App(Some(password)), Shown, NoEffect)
    case Failure(InvalidInput) => Reply(app, InvalidInputError, NoEffect)
    case Failure(InvalidLength) => Reply(app, InvalidLengthWarning, NoEffect)
  }

  /** The Copy button: never changes the state; puts the stripped password on
      the clipboard when the box holds a non-whitespace character, and warns
      otherwise. */
  function OnCopy(app: App): (r: Reply)
    ensures r.app == app
    ensures r.effect.SetClipboard? <==> app.current.Some? && HasNonSpace(app.current.value)
    ensures r.effect.SetClipboard? ==> r.notice == CopiedInfo && r.effect.text == ShownPassword(app) != []
    ensures !r.effect.SetClipboard? ==> r == Reply(app, NoPasswordWarning, NoEffect)
  {
    BoxTextNonSpace(app);
    var password := ShownPassword(app);
    if password != [] then Reply(app, CopiedInfo, SetClipboard(password))
    else Reply(app, NoPasswordWarning, NoEffect)
  }

  /** The Save button: never changes the state; overwrites the save file with
      the stripped password when the box holds a non-whitespace character, and
      warns otherwise, leaving the file alone. */
  function OnSave(app: App): (r: Reply)
    ensures r.app == app
    ensures r.effect.WriteFile? <==> app.current.Some? && HasNonSpace(app.current.value)
    ensures r.effect.WriteFile? ==>
      r.notice == SavedInfo && r.effect.path == SaveFileName && r.effect.contents == ShownPassword(app) != []
    ensures !r.effect.WriteFile? ==> r == Reply(app, NoPasswordWarning, NoEffect)
  {
    BoxTextNonSpace(app);
    var password := ShownPassword(app);
    if password != [] then Reply(app, SavedInfo, WriteFile(SaveFileName, password))
    else Reply(app, NoPasswordWarning, NoEffect)
  }

  /** The newline tkinter appends is whitespace, so the box text has a
      non-whitespace character exactly when the stored password has one. */
  lemma BoxTextNonSpace(app: App)
    ensures HasNonSpace(BoxText(app)) <==> app.current.Some? && HasNonSpace(app.current.value)
  {
    var s := app.current.GetOr("");
    var t := BoxText(app);
    assert t == s + "\n";
    if HasNonSpace(t) {
      var i :| 0 <= i < |t| && !IsSpace(t[i]);
      assert i < |s| && s[i] == t[i];
    }
    if app.current.Some? && HasNonSpace(s) {
      var i :| 0 <= i < |s| && !IsSpace(s[i]);
      assert t[i] == s[i];
    }
  }

  /** After a successful generation, Copy puts exactly the new password on the clipboard. */
  lemma CopyAfterGenerate(app: App, length: int, bytes: seq<uint8>)
    requires ValidLength(length) && |bytes| == BytesNeeded(length)
    ensures OnCopy(OnGenerate(app, Some(length), bytes).app) ==
      Reply(App(Some(Derive(length, bytes))), CopiedInfo, SetClipboard(Derive(length, bytes)))
  {
    GeneratedPasswordReadsBack(length, bytes);
  }

  /** After a successful generation, Save writes exactly the new password,
      with no trailing newline, to the save file. */
  lemma SaveAfterGenerate(app: App, length: int, bytes: seq<uint8>)
    requires ValidLength(length) && |bytes| == BytesNeeded(length)
    ensures OnSave(OnGenerate(app, Some(length), bytes).app) ==
      Reply(App(Some(Derive(length, bytes))), SavedInfo, WriteFile(SaveFileName, Derive(length, bytes)))
  {
    GeneratedPasswordReadsBack(length, bytes);
  }

  /** A generated password contains no whitespace, so reading it back from
      the box and stripping it gives the password unchanged. */
  lemma GeneratedPasswordReadsBack(length: int, bytes: seq<uint8>)
    requires ValidLength(length) && |bytes| == BytesNeeded(length)
    ensures ShownPassword(App(Some(Derive(length, bytes)))) == Derive(length, bytes)
  {
    var password := Derive(length, bytes);
    forall i | 0 <= i < |password|
      ensures !IsSpace(password[i])
    {
      assert IsAlphabetChar(password[i]);
    }
    StripTrailingNewline(password);
  }

  /** Before any generation, Copy and Save only warn. */
  lemma NothingBeforeGenerate()
    ensures OnCopy(Initial) == Reply(Initial, NoPasswordWarning, NoEffect)
    ensures OnSave(Initial) == Reply(Initial, NoPasswordWarning, NoEffect)
  {
  }

  /** A successful generation leaves nothing of the previous state behind:
      two applications given the same input and bytes end in the same state. */
  lemma GenerateReplaces(app1: App, app2: App, length: int, bytes: seq<uint8>)
    requires ValidLength(length) && |bytes| == BytesNeeded(length)
    ensures OnGenerate(app1, Some(length), bytes).app == OnGenerate(app2, Some(length), bytes).app
    ensures |OnGenerate(app1, Some(length), bytes).app.current.value| == length
  {
  }
}
