/** The editor window's document state and the operations that change it:
    editing, loading, saving and the close decision. File reads and writes,
    and the answers of the file and question dialogs, come in as parameters. */
module Editor {
  import opened Wrappers
  import opened Rules
  import opened Recolor
  import opened Extension

  /** The answer to the unsaved-changes question. */
  datatype Reply = Yes | No | Cancel

  /** What reading a file produced: its content, or the error message the
      editor puts in the text area. */
  datatype ReadOutcome = ReadOk(content: string) | ReadFailed(message: string)

  /** Whether writing a file succeeded; on failure, the error message the
      editor puts in the text area. */
  datatype WriteOutcome = WriteOk | WriteFailed(message: string)

  /** One attempted write: the file and the text written to it. */
  datatype Write = Write(path: string, content: string)

  /** The window's state. `currentFile` is empty while no file is associated
      with the window; `highlighter` is the language tag of the attached
      highlighter, if any. */
  datatype Window = Window(text: string, unsavedChanges: bool, currentFile: string, highlighter: Option<string>)

  /** A freshly constructed window, before any file is loaded. */
  const Fresh := Window("", false, "", None)

  /** `setText` or a user edit: the content changes and, since every content
      change fires `textChanged`, which is connected to `mark_unsaved`, the
      window has unsaved changes. The text is taken as plain text: Qt's
      rich-text guess is not modelled. */
  function SetText(w: Window, text: string): (r: Window)
    ensures r.text == text && r.unsavedChanges
    ensures r.currentFile == w.currentFile && r.highlighter == w.highlighter
  {
    MarkUnsaved(w.(text := text))
  }

  /** `mark_unsaved`. */
  function MarkUnsaved(w: Window): (r: Window)
    ensures r.unsavedChanges
    ensures r.(unsavedChanges := w.unsavedChanges) == w
  {
    w.(unsavedChanges := true)
  }

  /** `load_file`: on a successful read the window shows the file's content,
      is associated with the file, has no unsaved changes and gets the
      highlighter the file's extension selects. On a failed read it shows
      the error message, which counts as an unsaved change, and keeps its
      file and highlighter. */
  function LoadFile(w: Window, path: string, read: ReadOutcome): (r: Window)
    ensures read.ReadOk? ==> r == Window(read.content, false, path, LanguageFor(path))
    ensures read.ReadFailed? ==>
      r == w.(text := read.message, unsavedChanges := true)
  {
    match read
    case ReadOk(content) =>
      SetText(w, content).(currentFile := path, unsavedChanges := false, highlighter := LanguageFor(path))
    case ReadFailed(message) =>
      SetText(w, message)
  }

  /** `open_file`: an empty path from the open dialog means it was
      cancelled and nothing happens. */
  function OpenFile(w: Window, dialogPath: string, read: ReadOutcome): (r: Window)
    ensures dialogPath == [] ==> r == w
    ensures dialogPath != [] ==> r == LoadFile(w, dialogPath, read)
  {
    if dialogPath == [] then w else LoadFile(w, dialogPath, read)
  }

  /** The window the program starts with: fresh, then the file named on the
      command line loaded, when one is named. */
  function Launch(filename: string, read: ReadOutcome): (r: Window)
    ensures filename == [] ==> r == Fresh
    ensures filename != [] ==> r == LoadFile(Fresh, filename, read)
    ensures filename != [] && read.ReadOk? ==> r == Window(read.content, false, filename, LanguageFor(filename))
    ensures filename != [] && read.ReadFailed? ==> r == Window(read.message, true, "", None)
  {
    if filename == [] then Fresh else LoadFile(Fresh, filename, read)
  }

  /** The characters `QTextDocument::toPlainText` does not hand out as they
      are held: a non-breaking space, the line and paragraph separators
      U+2028 and U+2029, and the frame markers U+FDD0 and U+FDD1. */
  predicate Converted(c: char) {
    c == '\U{00A0}' || c == '\U{2028}' || c == '\U{2029}' || c == '\U{FDD0}' || c == '\U{FDD1}'
  }

  /** One character as `toPlainText` hands it out: a non-breaking space
      becomes a space, the separators and frame markers a newline. */
  function PlainChar(c: char): char {
    if c == '\U{00A0}' then ' '
    else if Converted(c) then '\n'
    else c
  }

  /** `toPlainText`: the document's text with the converted characters
      replaced, one for one. */
  function PlainText(text: string): (plain: string)
    ensures |plain| == |text|
    ensures forall i :: 0 <= i < |text| ==> (plain[i] == text[i] <==> !Converted(text[i]))
    ensures forall i :: 0 <= i < |text| ==> !Converted(plain[i])
    ensures forall i :: 0 <= i < |text| && Converted(text[i]) ==> plain[i] == ' ' || plain[i] == '\n'
  {
    seq(|text|, i requires 0 <= i < |text| => PlainChar(text[i]))
  }

  /** Converting twice is converting once. */
  lemma {:induction false} PlainTextIdempotent(text: string)
    ensures PlainText(PlainText(text)) == PlainText(text)
  {
  }

  /** Text without converted characters is handed out unchanged. */
  lemma {:induction false} PlainTextKeeps(text: string)
    requires forall i :: 0 <= i < |text| ==> !Converted(text[i])
    ensures PlainText(text) == text
  {
  }

  /** A non-breaking space is saved as a plain space. */
  lemma {:induction false} NonBreakingSpaceSavedAsSpace()
    ensures PlainText("a\U{00A0}b") == "a b"
  {
  }

  /** `save_file`. A window with a file writes to it; otherwise the save
      dialog supplies the path, and an empty path (a cancelled dialog) ends
      the save with nothing written and nothing changed. What is written is
      the text as `toPlainText` hands it out. The chosen path
      becomes the window's file before the write is attempted. A successful
      write clears the unsaved flag; a failed one replaces the text by the
      error message and so leaves the window with unsaved changes. */
  function SaveFile(w: Window, dialogPath: string, outcome: WriteOutcome): (r: (Window, Option<Write>))
    ensures w.currentFile == [] && dialogPath == [] <==> r.1.None?
    ensures r.1.None? ==> r.0 == w
    ensures r.1.Some? ==>
      && r.1.value.content == PlainText(w.text)
      && r.1.value.path == (if w.currentFile != [] then w.currentFile else dialogPath)
      && r.0.currentFile == r.1.value.path
      && r.0.highlighter == w.highlighter
      && (outcome.WriteOk? ==> r.0.text == w.text && !r.0.unsavedChanges)
      && (outcome.WriteFailed? ==> r.0.text == outcome.message && r.0.unsavedChanges)
  {
    if w.currentFile == [] && dialogPath == [] then
      (w, None)
    else
      var path := if w.currentFile != [] then w.currentFile else dialogPath;
      var w1 := w.(currentFile := path);
      var written := Some(Write(path, PlainText(w.text)));
      match outcome
      case WriteOk => (w1.(unsavedChanges := false), written)
      case WriteFailed(message) => (SetText(w1, message), written)
  }

  /** `closeEvent`: a window without unsaved changes closes without asking.
      Otherwise the question decides: Yes saves and then closes, No closes,
      Cancel keeps the window open. The reply, the save dialog's path and
      the write's outcome are only consulted when they are needed. */
  function CloseEvent(w: Window, reply: Reply, dialogPath: string, outcome: WriteOutcome): (r: (bool, Window))
    ensures r.0 <==> !(w.unsavedChanges && reply == Cancel)
    ensures !w.unsavedChanges ==> r.1 == w
    ensures reply != Yes ==> r.1 == w
    ensures w.unsavedChanges && reply == Yes ==> r.1 == SaveFile(w, dialogPath, outcome).0
  {
    if w.unsavedChanges then
      match reply
      case Yes => (true, SaveFile(w, dialogPath, outcome).0)
      case No => (true, w)
      case Cancel => (false, w)
    else
      (true, w)
  }

  /** The formats the window's highlighter leaves on a line: none at all
      without a highlighter. */
  function WindowLineColors(w: Window, line: string): (colors: seq<Option<Style>>)
    ensures |colors| == |line|
    ensures w.highlighter.None? ==> forall i :: 0 <= i < |line| ==> colors[i].None?
  {
    match w.highlighter
    case None => seq(|line|, _ => None)
    case Some(language) => LineColors(line, language)
  }

  /** Every edit leaves the window with unsaved changes, whatever the
      window's state was. */
  lemma {:induction false} EditMarksUnsaved(w: Window, text: string)
    ensures SetText(w, text).unsavedChanges
    ensures CloseEvent(SetText(w, text), Cancel, [], WriteOk).0 == false
  {
  }

  /** A window that was just loaded successfully closes without asking:
      the reply is never consulted. */
  lemma {:induction false} LoadedWindowClosesSilently(w: Window, path: string, content: string, reply: Reply, dialogPath: string, outcome: WriteOutcome)
    ensures CloseEvent(LoadFile(w, path, ReadOk(content)), reply, dialogPath, outcome)
      == (true, LoadFile(w, path, ReadOk(content)))
  {
  }

  /** After a successful save the window closes without asking. */
  lemma {:induction false} SavedWindowClosesSilently(w: Window, dialogPath: string, reply: Reply, dialogPath2: string, outcome: WriteOutcome)
    requires w.currentFile != [] || dialogPath != []
    ensures CloseEvent(SaveFile(w, dialogPath, WriteOk).0, reply, dialogPath2, outcome).0
  {
  }

  /** Answering Yes always closes the window, even when the save does not
      happen (the save dialog is cancelled) or fails: the unsaved changes
      are then lost. */
  lemma {:induction false} YesClosesEvenWithoutSaving(w: Window, message: string)
    requires w.unsavedChanges && w.currentFile == []
    ensures CloseEvent(w, Yes, [], WriteOk) == (true, w)
    ensures CloseEvent(w, Yes, "out.php", WriteFailed(message)).0
    ensures CloseEvent(w, Yes, "out.php", WriteFailed(message)).1.text == message
  {
  }

  /** Loading a file replaces the highlighter outright: the formats on every
      line depend only on the loaded file's path, not on the highlighter the
      window had before. */
  lemma {:induction false} LoadReplacesHighlighter(w1: Window, w2: Window, path: string, content: string, line: string)
    ensures WindowLineColors(LoadFile(w1, path, ReadOk(content)), line)
         == WindowLineColors(LoadFile(w2, path, ReadOk(content)), line)
  {
  }

  /** Saving a file just loaded writes back exactly what was read, when
      the content holds no character `toPlainText` converts. */
  lemma {:induction false} LoadThenSaveRoundTrip(w: Window, path: string, content: string, dialogPath: string, outcome: WriteOutcome)
    requires path != []
    requires forall i :: 0 <= i < |content| ==> !Converted(content[i])
    ensures SaveFile(LoadFile(w, path, ReadOk(content)), dialogPath, outcome).1 == Some(Write(path, content))
  {
    PlainTextKeeps(content);
  }

  /** Loading a `.php` file in any case attaches the php highlighter. */
  lemma {:induction false} LoadPhpFile(w: Window, stem: string, suffix: string, content: string)
    requires stem != [] && stem[|stem| - 1] != '.' && stem[|stem| - 1] != '/'
    requires forall k :: 0 <= k < |suffix| ==> suffix[k] != '.' && suffix[k] != '/'
    requires Lower(suffix) == "php"
    ensures LoadFile(w, stem + "." + suffix, ReadOk(content)).highlighter == Some("php")
  {
    LanguageOfSuffix(stem, suffix);
  }

}
