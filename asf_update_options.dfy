// The fluent edit builder of an ASF file: each `With*` call records one edit, and `Update`
// applies the recorded edits to the File Properties and Content Description objects of
// the loaded file before rewriting it.

module UpdateOptions {
  import opened Wrappers
  import opened Bytes
  import opened AsfStruct
  import opened Utf16
  import AsfFiles
  import AsfObjects
  import CD = ContentDescription
  import FP = FileProperties

  /** A string property as UTF-16 code units. */
  type Text = seq<u16>

  /** The edits recorded so far; `None` stands for a property left null, i.e. not to be edited. */
  datatype Edits = Edits(
    title: Option<Text>,
    author: Option<Text>,
    copyright: Option<Text>,
    description: Option<Text>,
    rating: Option<Text>,
    creationTime: Option<FP.Ticks>)

  const NO_EDITS: Edits := Edits(None, None, None, None, None, None)

  datatype UpdateError =
    | NoFileProperties           // a creation time is set but the file has no File Properties Object
    | NoContentDescription       // a string is set but the file has no Content Description Object
    | UpdateFailed(fileError: AsfFiles.FileError)

  /** The new value of a property: the edit when one was recorded, else the value it had. */
  function Edited(edit: Option<Text>, current: Text): Text
  {
    if edit.Some? then edit.value else current
  }

  /** Whether any of the five content-description strings is to be edited. */
  predicate EditsContent(e: Edits)
  {
    e.title.Some? || e.author.Some? || e.copyright.Some? || e.description.Some? || e.rating.Some?
  }

  /** The dictionary writes of `Update`: each string with a recorded edit is replaced. */
  function EditContent(c: CD.Content, e: Edits): CD.Content
  {
    CD.Content(Edited(e.title, c.title), Edited(e.author, c.author), Edited(e.copyright, c.copyright),
               Edited(e.description, c.description), Edited(e.rating, c.rating))
  }

  /** Each string of the edited content is the recorded edit, or the old string when none was recorded. */
  lemma EditContentFields(c: CD.Content, e: Edits)
    ensures var r := EditContent(c, e);
      && (e.title.Some? ==> r.title == e.title.value) && (e.title.None? ==> r.title == c.title)
      && (e.author.Some? ==> r.author == e.author.value) && (e.author.None? ==> r.author == c.author)
      && (e.copyright.Some? ==> r.copyright == e.copyright.value) && (e.copyright.None? ==> r.copyright == c.copyright)
      && (e.description.Some? ==> r.description == e.description.value)
      && (e.description.None? ==> r.description == c.description)
      && (e.rating.Some? ==> r.rating == e.rating.value) && (e.rating.None? ==> r.rating == c.rating)
  {
  }

  /** Without string edits the content is left exactly as it was. */
  lemma NoContentEdits(c: CD.Content, e: Edits)
    requires !EditsContent(e)
    ensures EditContent(c, e) == c
  {
  }

  /** `GetAsfObject<AsfFileProperties>`: the index of the first File Properties Object. */
  function FirstProperties(os: seq<AsfObjects.AsfObject>): (r: Option<nat>)
    ensures r.Some? ==> r.value < |os| && os[r.value].body.FilePropertiesBody?
                        && forall i :: 0 <= i < r.value ==> !os[i].body.FilePropertiesBody?
    ensures r.None? ==> forall i :: 0 <= i < |os| ==> !os[i].body.FilePropertiesBody?
  {
    if os == [] then None
    else if os[0].body.FilePropertiesBody? then Some(0)
    else match FirstProperties(os[1..])
      case None => None
      case Some(i) => Some(i + 1)
  }

  /** `GetAsfObject<AsfContentDescriptionObject>`: the index of the first Content Description Object. */
  function FirstContent(os: seq<AsfObjects.AsfObject>): (r: Option<nat>)
    ensures r.Some? ==> r.value < |os| && os[r.value].body.ContentDescriptionBody?
                        && forall i :: 0 <= i < r.value ==> !os[i].body.ContentDescriptionBody?
    ensures r.None? ==> forall i :: 0 <= i < |os| ==> !os[i].body.ContentDescriptionBody?
  {
    if os == [] then None
    else if os[0].body.ContentDescriptionBody? then Some(0)
    else match FirstContent(os[1..])
      case None => None
      case Some(i) => Some(i + 1)
  }

  /** The creation-time edit: the first File Properties Object gets the time; none there throws. */
  function SetCreationTime(os: seq<AsfObjects.AsfObject>, t: FP.Ticks): (r: Result<seq<AsfObjects.AsfObject>, UpdateError>)
  {
    match FirstProperties(os)
    case None => Err(NoFileProperties)
    case Some(i) =>
      var p := os[i].body.properties;
      Ok(os[i := os[i].(body := AsfObjects.FilePropertiesBody(p.(creationTime := t)))])
  }

  /** The string edits: the first Content Description Object gets the edited strings; none
      there throws, but only when some string is to be edited. */
  function SetContent(os: seq<AsfObjects.AsfObject>, e: Edits): (r: Result<seq<AsfObjects.AsfObject>, UpdateError>)
  {
    match FirstContent(os)
    case None => if EditsContent(e) then Err(NoContentDescription) else Ok(os)
    case Some(i) =>
      var d := os[i].body.description;
      Ok(os[i := os[i].(body := AsfObjects.ContentDescriptionBody(d.(content := EditContent(d.content, e))))])
  }

  /** The object edits of `Update`, in its order: the creation time first, then the strings. */
  function EditObjects(os: seq<AsfObjects.AsfObject>, e: Edits): (r: Result<seq<AsfObjects.AsfObject>, UpdateError>)
  {
    var timed :- if e.creationTime.Some? then SetCreationTime(os, e.creationTime.value) else Ok(os);
    SetContent(timed, e)
  }

  /** The creation-time edit changes only the creation time of the first File Properties Object. */
  lemma SetCreationTimeEffect(os: seq<AsfObjects.AsfObject>, t: FP.Ticks)
    ensures SetCreationTime(os, t).Ok? <==> FirstProperties(os).Some?
    ensures SetCreationTime(os, t).Ok? ==>
      var r := SetCreationTime(os, t).value;
      var i := FirstProperties(os).value;
      && |r| == |os| && r[i].base == os[i].base
      && r[i].body == AsfObjects.FilePropertiesBody(os[i].body.properties.(creationTime := t))
      && (forall j :: 0 <= j < |os| && j != i ==> r[j] == os[j])
      && FirstContent(r) == FirstContent(os)
  {
    if FirstProperties(os).Some? {
      var r := SetCreationTime(os, t).value;
      var i := FirstProperties(os).value;
      SameContentIndex(os, r, i);
    }
  }

  /** Replacing a File Properties Object by another keeps the index of the first Content Description Object. */
  lemma SameContentIndex(os: seq<AsfObjects.AsfObject>, r: seq<AsfObjects.AsfObject>, i: nat)
    requires |r| == |os| && i < |os| && os[i].body.FilePropertiesBody? && r[i].body.FilePropertiesBody?
    requires forall j :: 0 <= j < |os| && j != i ==> r[j] == os[j]
    ensures FirstContent(r) == FirstContent(os)
    decreases |os|
  {
    if os != [] && !os[0].body.ContentDescriptionBody? {
      if i == 0 {
        assert r[1..] == os[1..];
      } else {
        SameContentIndex(os[1..], r[1..], i - 1);
      }
    }
  }

  /**
   * What `Update` does to the objects: without a recorded creation time the File Properties
   * are untouched; with one, only its creation time changes. Without string edits the
   * Content Description is untouched; with them its strings become the edited ones. Every
   * other object, and every object's raw bytes, stay as they were.
   */
  lemma EditObjectsEffect(os: seq<AsfObjects.AsfObject>, e: Edits)
    ensures EditObjects(os, e).Err? <==>
      (e.creationTime.Some? && FirstProperties(os).None?) || (EditsContent(e) && FirstContent(os).None?)
    ensures EditObjects(os, e).Ok? ==>
      var r := EditObjects(os, e).value;
      && |r| == |os|
      && (forall j :: 0 <= j < |os| ==> r[j].base == os[j].base)
      && (forall j :: (0 <= j < |os| && Some(j) != FirstContent(os)
                       && (e.creationTime.None? || Some(j) != FirstProperties(os))) ==> r[j] == os[j])
      && (e.creationTime.Some? ==> var i := FirstProperties(os).value;
            r[i].body == AsfObjects.FilePropertiesBody(os[i].body.properties.(creationTime := e.creationTime.value)))
      && (FirstContent(os).Some? ==> var i := FirstContent(os).value;
            var d := os[i].body.description;
            r[i].body == AsfObjects.ContentDescriptionBody(d.(content := EditContent(d.content, e))))
  {
    if e.creationTime.Some? {
      SetCreationTimeEffect(os, e.creationTime.value);
    }
  }

  /** The edits keep every object writable: the struct of a Content Description and the
      well-formedness of File Properties do not depend on the edited values. */
  lemma EditsKeepWritable(os: seq<AsfObjects.AsfObject>, e: Edits)
    requires AsfFiles.AllWritable(os)
    ensures EditObjects(os, e).Ok? ==> AsfFiles.AllWritable(EditObjects(os, e).value)
  {
    EditObjectsEffect(os, e);
  }

  /**
   * The update test's round trip: a Content Description serialised with the edited
   * strings reads back, wherever it sits in the file, as the edited strings, and so as
   * the recorded edits themselves for every string that was edited, provided the strings
   * are well formed, have no NUL at either end and fit their length fields.
   */
  lemma EditedContentReadBack(h: seq<FieldValue>, c: CD.Content, e: Edits, pre: seq<u8>, post: seq<u8>)
    requires Fits(CONTENT_DESCRIPTION, h)
    requires forall i :: 0 <= i < 5 ==> WellFormed(CD.Items(EditContent(c, e))[i]) && Untrimmed(CD.Items(EditContent(c, e))[i])
    requires CD.Serialize(h, EditContent(c, e)).Ok?
    ensures var back := CD.ParseContent(pre + CD.Serialize(h, EditContent(c, e)).value + post, |pre|).content;
      && (e.title.Some? ==> back.title == e.title.value) && (e.title.None? ==> back.title == c.title)
      && (e.author.Some? ==> back.author == e.author.value) && (e.author.None? ==> back.author == c.author)
      && (e.copyright.Some? ==> back.copyright == e.copyright.value) && (e.copyright.None? ==> back.copyright == c.copyright)
      && (e.description.Some? ==> back.description == e.description.value)
      && (e.description.None? ==> back.description == c.description)
      && (e.rating.Some? ==> back.rating == e.rating.value) && (e.rating.None? ==> back.rating == c.rating)
  {
    CD.ContentRoundTrip(h, EditContent(c, e), pre, post);
    EditContentFields(c, e);
  }

  /** The creation-time edit survives the rewrite: the File Properties written with it read back with it. */
  lemma EditedCreationTimeReadBack(rawData: seq<u8>, p: FP.FileProperties, t: FP.Ticks, packetSize: u32,
                                   pre: seq<u8>, post: seq<u8>)
    requires FP.WellFormed(p) && FP.Serialize(rawData, p.(creationTime := t), packetSize).Ok?
    ensures var q := FP.Parse(pre + FP.Serialize(rawData, p.(creationTime := t), packetSize).value + post, |pre|);
      q.Ok? && q.value.creationTime == t
  {
    FP.SerializeRoundTrip(rawData, p.(creationTime := t), packetSize, pre, post);
  }

  class AsfFileUpdateOptions {
    var fileName: string
    var title: Option<Text>
    var author: Option<Text>
    var copyright: Option<Text>
    var description: Option<Text>
    var rating: Option<Text>
    var fileCreationTime: Option<FP.Ticks>

    /** The recorded edits as one value. */
    function Recorded(): Edits
      reads this
    {
      Edits(title, author, copyright, description, rating, fileCreationTime)
    }

    /** `AsfFile.From`: a builder for the named file with nothing recorded. */
    constructor (fileName: string)
      ensures this.fileName == fileName && Recorded() == NO_EDITS
    {
      this.fileName := fileName;
      title := None;
      author := None;
      copyright := None;
      description := None;
      rating := None;
      fileCreationTime := None;
    }

    method WithFileCreationTime(fileCreationTime: FP.Ticks) returns (r: AsfFileUpdateOptions)
      modifies this`fileCreationTime
      ensures r == this && this.fileCreationTime == Some(fileCreationTime)
    {
      this.fileCreationTime := Some(fileCreationTime);
      return this;
    }

    method WithAuthor(author: Text) returns (r: AsfFileUpdateOptions)
      modifies this`author
      ensures r == this && this.author == Some(author)
    {
      this.author := Some(author);
      return this;
    }

    method WithDescription(description: Text) returns (r: AsfFileUpdateOptions)
      modifies this`description
      ensures r == this && this.description == Some(description)
    {
      this.description := Some(description);
      return this;
    }

    method WithTitle(title: Text) returns (r: AsfFileUpdateOptions)
      modifies this`title
      ensures r == this && this.title == Some(title)
    {
      this.title := Some(title);
      return this;
    }

    method WithRating(rating: Text) returns (r: AsfFileUpdateOptions)
      modifies this`rating
      ensures r == this && this.rating == Some(rating)
    {
      this.rating := Some(rating);
      return this;
    }

    method WithCopyright(copyright: Text) returns (r: AsfFileUpdateOptions)
      modifies this`copyright
      ensures r == this && this.copyright == Some(copyright)
    {
      this.copyright := Some(copyright);
      return this;
    }

    /**
     * `Update`, on the file loaded from `fileName`: the recorded edits are applied to its
     * objects, in place, then the file is rewritten to `target` (over itself when `target`
     * is empty). A missing object that an edit needs throws before anything is written.
     */
    method Update(file: AsfFiles.AsfFile, target: string) returns (r: Result<(string, seq<u8>), UpdateError>)
      requires file.fileName == fileName && AsfFiles.AllWritable(file.headerObjects)
      modifies file`headerObjects, file`data, file`fileStream
      ensures EditObjects(old(file.headerObjects), Recorded()).Err? ==>
        r.Err? && r.error == EditObjects(old(file.headerObjects), Recorded()).error && unchanged(file)
      ensures EditObjects(old(file.headerObjects), Recorded()).Ok? ==>
        AsfFiles.AllWritable(EditObjects(old(file.headerObjects), Recorded()).value)
      ensures EditObjects(old(file.headerObjects), Recorded()).Ok? ==>
        var edited := EditObjects(old(file.headerObjects), Recorded()).value;
        && (AsfFiles.Patched(edited).None? ==>
              r == Err(UpdateFailed(AsfFiles.NoFileHeader)) && file.headerObjects == edited)
        && (AsfFiles.Patched(edited).Some? ==>
              && file.headerObjects == AsfFiles.Patched(edited).value
              && var w := AsfFiles.Rewrite(file.headerObjects, file.asfConfig.Snapshot(), old(file.data));
              && (r.Ok? <==> w.Ok?)
              && (r.Err? ==> r.error == UpdateFailed(AsfFiles.WriteFailed(w.error)))
              && (r.Ok? ==> r.value.1 == w.value
                            && r.value.0 == (if target == [] || target == fileName then fileName else target)))
    {
      var e := Recorded();
      EditsKeepWritable(file.headerObjects, e);
      var edited := EditObjects(file.headerObjects, e);
      if edited.Err? {
        return Err(edited.error);
      }
      file.headerObjects := edited.value;
      var written := file.Update(target);
      if written.Err? {
        return Err(UpdateFailed(written.error));
      }
      return Ok(written.value);
    }
  }
}
