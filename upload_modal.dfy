/** The upload dialog (src/components/UploadModal.tsx): the image id composed from the typed
    directory and the file name, the drop acceptance rule, and the dialog's state across
    opening, dropping, uploading and closing. The upload request itself is foreign: its outcome
    is a parameter. */
module UploadModal {
  import opened Types
  import opened JsStrings
  import opened Worker
  import opened Dashboard

  // ---------------------------------------------------------------------------------------------
  // `String.prototype.trim`

  /** The characters `trim` removes: ECMAScript WhiteSpace (tab, vertical tab, form feed,
      space, no-break space, the byte order mark and the Unicode space separators) and
      LineTerminator (line feed, carriage return, line and paragraph separators). */
  predicate IsSpace(c: char)
  {
    || c == '\t' || c == '\n' || c == '\U{000B}' || c == '\U{000C}' || c == '\r' || c == ' '
    || c == '\U{00A0}' || c == '\U{1680}' || ('\U{2000}' <= c <= '\U{200A}')
    || c == '\U{2028}' || c == '\U{2029}' || c == '\U{202F}' || c == '\U{205F}'
    || c == '\U{3000}' || c == '\U{FEFF}'
  }

  /** `s` without its leading white space: a suffix of `s`, everything cut off before it is
      white space, and it does not start with white space. */
  function TrimStart(s: string): (r: string)
    ensures |r| <= |s| && r == s[|s| - |r|..]
    ensures forall i :: 0 <= i < |s| - |r| ==> IsSpace(s[i])
    ensures r == "" || !IsSpace(r[0])
  {
    if s != "" && IsSpace(s[0]) then TrimStart(s[1..]) else s
  }

  /** `s` without its trailing white space: a prefix of `s`, everything cut off after it is
      white space, and it does not end with white space. */
  function TrimEnd(s: string): (r: string)
    ensures |r| <= |s| && r == s[..|r|]
    ensures forall i :: |r| <= i < |s| ==> IsSpace(s[i])
    ensures r == "" || !IsSpace(r[|r| - 1])
  {
    if s != "" && IsSpace(s[|s| - 1]) then TrimEnd(s[..|s| - 1]) else s
  }

  /** `s.trim()`. */
  function Trim(s: string): string
  {
    TrimEnd(TrimStart(s))
  }

  // ---------------------------------------------------------------------------------------------
  // The image id

  /** `basePath ? `${basePath}/${file.name}` : file.name` with `basePath = customPath.trim()`. */
  function ImageId(customPath: string, fileName: string): string
  {
    var base := Trim(customPath);
    if base != "" then base + "/" + fileName else fileName
  }

  /** The "Final ID" preview, composed from the untrimmed path. */
  function PreviewId(customPath: string, fileName: string): string
  {
    if customPath != "" then customPath + "/" + fileName else fileName
  }

  /** White space at either end is all `trim` removes: a trimmed string is its own trim, and a
      string is unchanged exactly when it neither starts nor ends with white space. */
  lemma TrimFixed(s: string)
    ensures Trim(Trim(s)) == Trim(s)
    ensures Trim(s) == s <==> s == "" || (!IsSpace(s[0]) && !IsSpace(s[|s| - 1]))
  {
    var t := TrimStart(s);
    var r := TrimEnd(t);
    if r != "" {
      assert r[0] == t[0];
    }
    assert TrimStart(r) == r;
    if s != "" && !IsSpace(s[0]) && !IsSpace(s[|s| - 1]) {
      assert t == s;
    }
  }

  /** For a file name without a separator, the composed id splits into the segments of the
      trimmed path and the file name: its last segment is the file name, and its directory
      segments are those of the trimmed path (none when that is empty). */
  lemma ImageIdSegments(customPath: string, fileName: string)
    requires '/' !in fileName
    ensures LastSegment(ImageId(customPath, fileName)) == fileName
    ensures DirsOf(ImageId(customPath, fileName)) ==
      if Trim(customPath) == "" then [] else Split(Trim(customPath))
  {
    var base := Trim(customPath);
    SplitNoSlash(fileName);
    if base != "" {
      SplitConcat(base, fileName);
      var parts := Split(base) + [fileName];
      assert parts[..|parts| - 1] == Split(base);
    }
  }

  /** The upload round trip: once the listing holds the uploaded id, the built tree puts that
      image on the directory whose path is the trimmed path, provided the trimmed path has no
      empty segment; the worker resolves that path to it and the dashboard shows it there. */
  lemma UploadLandsInBase(h: seq<Node>, xs: seq<Image>, i: nat, customPath: string, fileName: string)
    requires BuiltFrom(h, xs) && i < |xs| && xs[i].id == ImageId(customPath, fileName)
    requires '/' !in fileName
    requires Trim(customPath) == "" || "" !in Split(Trim(customPath))
    ensures var m := Walk(h, 0, DirsOf(xs[i].id)).value;
      && h[m].path == Trim(customPath)
      && xs[i] in h[m].images
      && (Trim(customPath) != "" ==> Walk(h, 0, Split(Trim(customPath))) == Some(m))
      && (Trim(customPath) != "" ==> FindNode(Some(ToTree(h, 0)), Trim(customPath)) == Some(ToTree(h, m)))
  {
    var base := Trim(customPath);
    ImageIdSegments(customPath, fileName);
    ImagePlacedOnce(h, xs, i);
    if base != "" {
      var parts := Split(base);
      assert parts[0] != "";
      PathOfIsJoin(parts);
      JoinSplit(base);
      assert base[0] != '/';
      ClientMatchesServer(h, base);
    }
  }

  /** The preview shows the id that is uploaded exactly when trimming leaves the path as typed. */
  lemma PreviewMatchesIff(customPath: string, fileName: string)
    ensures PreviewId(customPath, fileName) == ImageId(customPath, fileName) <==> Trim(customPath) == customPath
  {
    var base := Trim(customPath);
    var preview, id := PreviewId(customPath, fileName), ImageId(customPath, fileName);
    if base != customPath && customPath != "" {
      if base == "" {
        assert |preview| > |id|;
      } else {
        assert |base| < |customPath|;
        assert |preview| != |id|;
      }
    }
  }

  // ---------------------------------------------------------------------------------------------
  // The dialog

  /** The properties of a chosen file that the dialog reads. */
  datatype FileInfo = FileInfo(name: string, mimeType: string)

  /** The parent's callbacks, in the order the dialog calls them. */
  datatype Callback = UploadComplete | Close

  /** What `uploadImage` settles with: success, a reported failure (its `error`, "" when
      absent), or a thrown exception. */
  datatype UploadOutcome = Succeeded | Failed(error: string) | Threw

  const WrongTypeError := "Only image files are allowed"
  const FailedError := "Upload failed"
  const ThrewError := "Upload failed. Please try again."

  /** The dialog's props (`isOpen`, `currentPath`) and its state. */
  class UploadDialog {
    var isOpen: bool
    var currentPath: string
    var file: Option<FileInfo>
    var customPath: string
    var uploading: bool
    var error: Option<string>
    var dragOver: bool

    /** Mounting: the initial state, then the reset effect if mounted open. */
    constructor (isOpen: bool, currentPath: string)
      ensures this.isOpen == isOpen && this.currentPath == currentPath
      ensures file.None? && error.None? && !uploading && !dragOver
      ensures customPath == if isOpen then currentPath else ""
    {
      this.isOpen := isOpen;
      this.currentPath := currentPath;
      file := None;
      customPath := "";
      uploading := false;
      error := None;
      dragOver := false;
      if isOpen {
        customPath := currentPath;
      }
    }

    /** A re-render with new props. The reset effect runs when `isOpen` or `currentPath`
        changed and the dialog is open: it clears the file, the error and the uploading flag
        and seeds the path from `currentPath`. */
    method SetProps(isOpen: bool, currentPath: string)
      modifies this
      ensures this.isOpen == isOpen && this.currentPath == currentPath && dragOver == old(dragOver)
      ensures isOpen && (isOpen != old(this.isOpen) || currentPath != old(this.currentPath)) ==>
        file.None? && error.None? && !uploading && customPath == currentPath
      ensures !(isOpen && (isOpen != old(this.isOpen) || currentPath != old(this.currentPath))) ==>
        file == old(file) && error == old(error) && uploading == old(uploading)
        && customPath == old(customPath)
    {
      var changed := isOpen != this.isOpen || currentPath != this.currentPath;
      this.isOpen := isOpen;
      this.currentPath := currentPath;
      if isOpen && changed {
        file := None;
        customPath := currentPath;
        error := None;
        uploading := false;
      }
    }

    /** Typing in the path field. */
    method EditPath(value: string)
      modifies this
      ensures customPath == value
      ensures isOpen == old(isOpen) && currentPath == old(currentPath) && file == old(file)
      ensures uploading == old(uploading) && error == old(error) && dragOver == old(dragOver)
    {
      customPath := value;
    }

    /** `handleFileChange`: a file picked in the browser dialog is taken and clears the error;
        no file changes nothing. */
    method HandleFileChange(selected: Option<FileInfo>)
      modifies this
      ensures selected.Some? ==> file == selected && error.None?
      ensures selected.None? ==> file == old(file) && error == old(error)
      ensures isOpen == old(isOpen) && currentPath == old(currentPath) && customPath == old(customPath)
      ensures uploading == old(uploading) && dragOver == old(dragOver)
    {
      if selected.Some? {
        file := selected;
        error := None;
      }
    }

    /** `handleDrop`: the drag highlight ends; a dropped file is taken only when its type
        starts with "image/", otherwise the error is set and the chosen file stays. */
    method HandleDrop(dropped: Option<FileInfo>)
      modifies this
      ensures !dragOver
      ensures dropped.Some? && StartsWith(dropped.value.mimeType, "image/") ==>
        file == dropped && error.None?
      ensures dropped.Some? && !StartsWith(dropped.value.mimeType, "image/") ==>
        file == old(file) && error == Some(WrongTypeError)
      ensures dropped.None? ==> file == old(file) && error == old(error)
      ensures isOpen == old(isOpen) && currentPath == old(currentPath) && customPath == old(customPath)
      ensures uploading == old(uploading)
    {
      dragOver := false;
      if dropped.Some? {
        if StartsWith(dropped.value.mimeType, "image/") {
          file := dropped;
          error := None;
        } else {
          error := Some(WrongTypeError);
        }
      }
    }

    /** `handleDragOver` and `handleDragLeave`. */
    method SetDragOver(over: bool)
      modifies this
      ensures dragOver == over
      ensures isOpen == old(isOpen) && currentPath == old(currentPath) && customPath == old(customPath)
      ensures file == old(file) && uploading == old(uploading) && error == old(error)
    {
      dragOver := over;
    }

    /** The upload button is enabled only with a file and while no upload runs. */
    predicate UploadEnabled()
      reads this
    {
      file.Some? && !uploading
    }

    /** The synchronous start of `handleUpload`: without a file nothing happens; otherwise the
        dialog enters the uploading state with no error and sends the file under the composed
        id. */
    method BeginUpload() returns (request: Option<(FileInfo, string)>)
      modifies this
      ensures old(file).None? ==> request.None? && uploading == old(uploading) && error == old(error)
      ensures old(file).Some? ==>
        request == Some((old(file).value, ImageId(customPath, old(file).value.name)))
        && uploading && error.None?
      ensures file == old(file) && customPath == old(customPath)
      ensures isOpen == old(isOpen) && currentPath == old(currentPath) && dragOver == old(dragOver)
    {
      if file.None? {
        return None;
      }
      uploading := true;
      error := None;
      var base := Trim(customPath);
      var imageId := if base != "" then base + "/" + file.value.name else file.value.name;
      request := Some((file.value, imageId));
    }

    /** The rest of `handleUpload` once the request settles: on success the parent is told the
        upload completed and then asked to close; a reported failure shows its error, or
        "Upload failed" when it has none; an exception shows the retry message. The `finally`
        clears `uploading` in every outcome. */
    method FinishUpload(outcome: UploadOutcome) returns (calls: seq<Callback>)
      modifies this
      ensures !uploading
      ensures outcome.Succeeded? ==> calls == [UploadComplete, Close] && error == old(error)
      ensures outcome.Failed? ==>
        calls == [] && error == Some(if outcome.error != "" then outcome.error else FailedError)
      ensures outcome.Threw? ==> calls == [] && error == Some(ThrewError)
      ensures file == old(file) && customPath == old(customPath)
      ensures isOpen == old(isOpen) && currentPath == old(currentPath) && dragOver == old(dragOver)
    {
      calls := [];
      match outcome {
        case Succeeded =>
          calls := [UploadComplete, Close];
        case Failed(message) =>
          error := Some(if message != "" then message else FailedError);
        case Threw =>
          error := Some(ThrewError);
      }
      uploading := false;
    }

    /** The Escape listener, registered only while open: it asks to close unless an upload
        runs. */
    function KeyDown(key: string): (r: seq<Callback>)
      reads this
      ensures r == [Close] <==> isOpen && key == "Escape" && !uploading
      ensures r == [] <==> !(isOpen && key == "Escape" && !uploading)
    {
      if isOpen && key == "Escape" && !uploading then [Close] else []
    }

    /** `handleOverlayClick` on the open dialog: a click on the backdrop itself asks to close
        unless an upload runs. */
    function OverlayClick(onBackdrop: bool): (r: seq<Callback>)
      reads this
      ensures r == [Close] <==> isOpen && onBackdrop && !uploading
      ensures r == [] <==> !(isOpen && onBackdrop && !uploading)
    {
      if isOpen && onBackdrop && !uploading then [Close] else []
    }

    /** The close and Cancel buttons, disabled while uploading. */
    function CloseButton(): (r: seq<Callback>)
      reads this
      ensures r == [Close] <==> isOpen && !uploading
      ensures r == [] <==> !(isOpen && !uploading)
    {
      if isOpen && !uploading then [Close] else []
    }
  }

  /** An upload in flight cannot be dismissed: after `handleUpload` starts with a file, no edit,
      file choice, drop or drag in between lets Escape, the backdrop or the close buttons ask
      to close; once the request settles, the close buttons work again on the open dialog. */
  method UploadBlocksClosing(d: UploadDialog, value: string, selected: Option<FileInfo>,
                             dropped: Option<FileInfo>, over: bool, key: string, onBackdrop: bool,
                             outcome: UploadOutcome)
    returns (blocked: seq<Callback>, calls: seq<Callback>, reopened: seq<Callback>)
    requires d.file.Some?
    modifies d
    ensures blocked == []
    ensures outcome.Succeeded? <==> calls == [UploadComplete, Close]
    ensures reopened == if old(d.isOpen) then [Close] else []
  {
    var request := d.BeginUpload();
    d.EditPath(value);
    d.HandleFileChange(selected);
    d.HandleDrop(dropped);
    d.SetDragOver(over);
    blocked := d.KeyDown(key) + d.OverlayClick(onBackdrop) + d.CloseButton();
    calls := d.FinishUpload(outcome);
    reopened := d.CloseButton();
  }
}
