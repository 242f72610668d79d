/**
 * `SpssTableSource`: a table source named by a `urn:file:` URN that stages the SPSS file it is
 * given as a stream into a fresh work directory on first use, decodes it once, answers from the
 * decoded datasource afterwards, and removes its work directory on disposal.
 * The decoder is an opaque function of its settings; the file system is `Files.FileSystem`.
 */
module SpssTables {
  import opened Wrappers
  import opened JavaStrings
  import opened Exceptions
  import opened Files
  import opened SpssUrn

  /**
   * Whether the staged name lands directly in the work directory. `new File(dir, name)`
   * normalises the name and drops a leading separator; a separator left after that names a
   * subdirectory that does not exist.
   */
  predicate Stageable(table: Option<string>) {
    Separator !in Leaf(StagedFileName(table))
  }

  /** A name without separators, after at most one leading separator, has no doubled separator. */
  lemma LeadThenPlain(lead: string, x: string)
    requires lead == [] || lead == [Separator]
    requires x != [] && Separator !in x
    ensures NoDoubleSeparator(lead + x)
  {
    var s := lead + x;
    forall i | 0 <= i < |s| ensures !DoubleAt(s, i) {
      if i + 1 < |s| {
        assert s[i + 1] == x[i + 1 - |lead|];
      }
    }
  }

  /** A name with no doubled or trailing separator, after at most one leading separator, is its own leaf. */
  lemma LeadLeaf(lead: string, x: string)
    requires lead == [] || lead == [Separator]
    requires x != [] && x[0] != Separator && x[|x| - 1] != Separator
    requires NoDoubleSeparator(lead + x)
    ensures Leaf(lead + x) == x
  {
    var s := lead + x;
    assert s[|s| - 1] == x[|x| - 1];
    CollapseIdentity(s);
    assert Normalize(s) == s;
    assert s[|lead|..] == x;
  }

  /** A staged name without separators is its own leaf. */
  lemma PlainLeaf(lead: string, name: string)
    requires lead == [] || lead == [Separator]
    requires name != [] && Separator !in name
    ensures Leaf(lead + name) == name
  {
    LeadThenPlain(lead, name);
    LeadLeaf(lead, name);
  }

  /** A table name without separators is staged directly in the work directory, even after a leading separator. */
  lemma PlainTableStageable(t: string, lead: string)
    requires Separator !in t
    requires lead == [] || lead == [Separator]
    ensures Stageable(Some(lead + t))
  {
    var name := t + ".sav";
    assert Separator !in name;
    assert StagedFileName(Some(lead + t)) == lead + name;
    PlainLeaf(lead, name);
  }

  /** Without a table the staged name is `null.sav`, directly in the work directory. */
  lemma NullTableStageable(name: string)
    requires name == StagedFileName(None)
    ensures Stageable(None)
  {
    assert Separator !in name;
    PlainLeaf([], name);
    assert [] + name == name;
  }

  /** Two non-empty segments without separators, joined by one, have no doubled separator. */
  lemma TwoSegments(lead: string, a: string, rest: string)
    requires lead == [] || lead == [Separator]
    requires a != [] && rest != [] && Separator !in a && Separator !in rest
    ensures NoDoubleSeparator(lead + (a + [Separator] + rest))
  {
    var inner := a + [Separator] + rest;
    var name := lead + inner;
    forall i | 0 <= i < |name| ensures !DoubleAt(name, i) {
      if i + 1 < |name| && name[i] == Separator {
        if i < |lead| {
          assert name[i + 1] == a[0];
        } else {
          assert inner[i - |lead|] == Separator;
          assert i - |lead| == |a|;
          assert name[i + 1] == rest[0];
        }
      }
    }
  }

  /** A separator after a non-empty first segment names a missing subdirectory. */
  lemma NestedTableUnstageable(lead: string, a: string, b: string)
    requires lead == [] || lead == [Separator]
    requires a != [] && Separator !in a && Separator !in b
    ensures !Stageable(Some(lead + a + [Separator] + b))
  {
    var rest := b + ".sav";
    var inner := a + [Separator] + rest;
    assert StagedFileName(Some(lead + a + [Separator] + b)) == lead + inner;
    assert Separator !in rest;
    TwoSegments(lead, a, rest);
    assert inner[|inner| - 1] == 'v';
    LeadLeaf(lead, inner);
    assert inner[|a|] == Separator;
  }

  /**
   * A Windows drive letter in the URN leaves the path as the table: the staged name
   * `/d/s.sav.sav` leads into a subdirectory `d` of the work directory, and the copy fails.
   */
  lemma DriveLetterUnstageable(u: string)
    requires u == Prefix + "C" + ":" + "/d/s.sav"
    ensures Parse(Some(u)).Success? && !Stageable(Parse(Some(u)).value.table)
  {
    ExampleDriveLetter(u);
    var a, b := "d", "s.sav";
    assert [Separator] + a + [Separator] + b == "/d/s.sav";
    NestedTableUnstageable([Separator], a, b);
  }

  /** A table the decoder found in the file; only its name matters to the source. */
  datatype ValueTable = ValueTable(name: string, entityType: string)

  /** A decoded file: its tables in the order the decoder lists them. */
  datatype Datasource = Datasource(tables: seq<ValueTable>)

  /** What the SPSS decoder factory is configured with before `create()`. */
  datatype DecoderSettings = DecoderSettings(
    name: string, entityType: string, characterSet: string, locale: string,
    idVariable: string, file: string)

  /**
   * The external decoder's behaviour on given settings: `create()` throws; or it returns a
   * datasource whose initialisation then throws; or both succeed.
   */
  datatype Decoding = CreateFailed | InitialiseFailed(created: Datasource) | Decoded(datasource: Datasource)

  /** `Properties.getProperty(key, default)`. */
  function PropertyOr(props: map<string, string>, key: string, default: string): string {
    if key in props then props[key] else default
  }

  /** The settings `ensureInitialized` gives the decoder factory, with their defaults. */
  function Settings(path: string, props: map<string, string>, file: string): (s: DecoderSettings)
    ensures s.name == path && s.file == file
    ensures "entity_type" in props ==> s.entityType == props["entity_type"]
    ensures "entity_type" !in props ==> s.entityType == "Participant"
    ensures "charset" in props ==> s.characterSet == props["charset"]
    ensures "charset" !in props ==> s.characterSet == "ISO-8859-1"
    ensures "locale" in props ==> s.locale == props["locale"]
    ensures "locale" !in props ==> s.locale == "en"
    ensures "id_variable" in props ==> s.idVariable == props["id_variable"]
    ensures "id_variable" !in props ==> s.idVariable == ""
  {
    DecoderSettings(
      path,
      PropertyOr(props, "entity_type", "Participant"),
      PropertyOr(props, "charset", "ISO-8859-1"),
      PropertyOr(props, "locale", "en"),
      PropertyOr(props, "id_variable", ""),
      file)
  }

  /** `table + ".sav"`: Java turns a null table into the text "null". */
  function StagedFileName(table: Option<string>): (name: string)
    ensures EndsWith(name, ".sav")
    ensures table.None? ==> name == "null.sav"
    ensures table.Some? ==> StartsWith(name, table.value) && |name| == |table.value| + 4
  {
    (if table.None? then "null" else table.value) + ".sav"
  }

  /** The first table of that name, if any. */
  function FindTable(tables: seq<ValueTable>, name: string): (r: Option<ValueTable>)
    ensures r.None? <==> forall i :: 0 <= i < |tables| ==> tables[i].name != name
    ensures r.Some? ==> exists i :: 0 <= i < |tables| && tables[i] == r.value && r.value.name == name
                          && forall j :: 0 <= j < i ==> tables[j].name != name
  {
    if tables == [] then None
    else if tables[0].name == name then Some(tables[0])
    else FindTable(tables[1..], name)
  }

  /**
   * The table `getValueTable` answers from a decoded datasource: the first one when no table
   * is named (or the name is empty), otherwise the first one of that name.
   */
  function SelectTable(ds: Datasource, table: Option<string>): (r: Result<ValueTable, Exception>)
    ensures IsNullOrEmpty(table) ==>
      && (r.Success? <==> ds.tables != [])
      && (r.Success? ==> r.value == ds.tables[0])
      && (r.Failure? ==> r.error == NoSuchElement)
    ensures !IsNullOrEmpty(table) ==>
      && (r.Success? <==> exists i :: 0 <= i < |ds.tables| && ds.tables[i].name == table.value)
      && (r.Success? ==> exists i :: 0 <= i < |ds.tables| && ds.tables[i] == r.value && r.value.name == table.value
                                    && forall j :: 0 <= j < i ==> ds.tables[j].name != table.value)
      && (r.Failure? ==> r.error == NoSuchValueTable(table.value))
  {
    if IsNullOrEmpty(table) then
      if ds.tables == [] then Failure(NoSuchElement) else Success(ds.tables[0])
    else
      match FindTable(ds.tables, table.value)
      case None => Failure(NoSuchValueTable(table.value))
      case Some(t) => Success(t)
  }

  /** The host's stream provider, with a count of the streams it has been asked for. */
  class StreamProvider {
    var requests: nat
    /** Whether `getInputStream()` returns a stream (rather than throwing an `IOException`). */
    const opens: bool
    /** Whether the stream it returns can be read to its end. */
    const drains: bool

    constructor (opens: bool, drains: bool)
      ensures requests == 0 && this.opens == opens && this.drains == drains
    {
      requests := 0;
      this.opens := opens;
      this.drains := drains;
    }

    method GetInputStream() returns (available: bool)
      modifies this
      ensures requests == old(requests) + 1 && available == opens
    {
      requests := requests + 1;
      available := opens;
    }
  }

  class SpssTableSource {
    const path: string
    const table: Option<string>
    var properties: Option<map<string, string>>
    var initialized: bool
    var datasource: Option<Datasource>
    var fileStreamProvider: StreamProvider?
    var tmpdir: Option<string>

    /** A source marked initialised holds a decoded datasource and the directory it was staged in. */
    ghost predicate Valid()
      reads this
    {
      initialized ==> datasource.Some? && tmpdir.Some?
    }

    /** Freshly built: not configured, not bound, nothing staged. */
    ghost predicate Pristine()
      reads this
    {
      properties.None? && !initialized && datasource.None? && fileStreamProvider == null && tmpdir.None?
    }

    /** The path and table this source was built from. */
    function Named(): Locator {
      Locator(path, table)
    }

    /** `newSource(path, table)`. */
    constructor (path: string, table: Option<string>)
      ensures Valid() && Pristine() && this.path == path && this.table == table
    {
      this.path := path;
      this.table := table;
      properties := None;
      initialized := false;
      datasource := None;
      fileStreamProvider := null;
      tmpdir := None;
    }

    /** `fromURN`: a new source for the locator `Parse` reads off the URN, or its refusal. */
    static method FromUrn(source: Option<string>) returns (r: Result<SpssTableSource, Exception>)
      ensures Parse(source).Failure? ==> r == Failure(Parse(source).error)
      ensures Parse(source).Success? ==>
        && r.Success? && fresh(r.value) && r.value.Valid() && r.value.Pristine()
        && r.value.Named() == Parse(source).value
    {
      var parsed := Parse(source);
      if parsed.Failure? {
        return Failure(parsed.error);
      }
      var created := new SpssTableSource(parsed.value.path, parsed.value.table);
      r := Success(created);
    }

    /** `configure(properties)`. */
    method Configure(props: Option<map<string, string>>)
      modifies this
      ensures properties == props
      ensures initialized == old(initialized) && datasource == old(datasource)
      ensures fileStreamProvider == old(fileStreamProvider) && tmpdir == old(tmpdir)
    {
      properties := props;
    }

    /** `getURN`: serialises the locator; a well-formed locator comes back unchanged from a parse. */
    function GetUrn(): (u: string)
      ensures StartsWith(u, Prefix)
      ensures WellFormed(Named()) ==> Parse(Some(u)) == Success(Named())
    {
      if WellFormed(Named()) then
        FormatThenParse(Named());
        Format(Named())
      else
        Format(Named())
    }

    /** `setStudyTableFileStreamProvider`: binds the provider and forces staging on next use. */
    method SetStudyTableFileStreamProvider(provider: StreamProvider?)
      requires Valid()
      modifies this
      ensures Valid()
      ensures fileStreamProvider == provider && !initialized
      ensures properties == old(properties) && datasource == old(datasource) && tmpdir == old(tmpdir)
    {
      fileStreamProvider := provider;
      initialized := false;
    }

    /** `getContingency`: unsupported whatever the state, which it does not read. */
    function GetContingency(variable: string, crossVariable: string): (e: Exception)
      ensures e.UnsupportedOperation?
      ensures e.message == "Contingency search not available from a SPSS file"
    {
      UnsupportedOperation("Contingency search not available from a SPSS file")
    }

    /** `getVariableSummary`: unsupported whatever the state, which it does not read. */
    function GetVariableSummary(variableName: string): (e: Exception)
      ensures e.UnsupportedOperation?
      ensures e.message == "Summary statistics not available from a SPSS file"
    {
      UnsupportedOperation("Summary statistics not available from a SPSS file")
    }

    /** Everything is in place for a staging attempt: not initialised, configured and bound. */
    ghost predicate ReadyToStage()
      reads this
    {
      !initialized && properties.Some? && fileStreamProvider != null
    }

    /** The stream opens and the work directory the properties name exists. */
    ghost predicate CanStage(fs: FileSystem)
      reads this, fs, fileStreamProvider
    {
      && ReadyToStage() && fileStreamProvider.opens
      && "work.dir" in properties.value && properties.value["work.dir"] in fs.dirs
    }

    /** The staged copy of the stream inside the work directory `dir`. */
    function StagedFile(dir: string): string {
      Resolve(dir, StagedFileName(table))
    }

    /**
     * `Files.copy(inputStream, new File(dir, table + ".sav"))` into the directory `dir` just
     * created: creates the staged file, which fails when its name leads into a subdirectory, and
     * then drains the stream into it.
     */
    method CopyStream(fs: FileSystem, dir: string) returns (r: Outcome<Exception>)
      requires fs.Valid() && fileStreamProvider != null
      requires dir in fs.dirs && Tree(fs.dirs - {dir}, fs.files)
      requires |dir| > 1 && dir[|dir| - 1] != Separator
      modifies fs
      ensures fs.Valid() && fs.dirs == old(fs.dirs)
      ensures StagedFile(dir) == Child(dir, Leaf(StagedFileName(table)))
      ensures !Stageable(table) ==> r == Fail(Wrapped(NoSuchFile(StagedFile(dir)))) && fs.files == old(fs.files)
      ensures Stageable(table) ==>
                && IsChild(dir, StagedFile(dir)) && fs.files == old(fs.files) + {StagedFile(dir)}
                && r == (if fileStreamProvider.drains then Pass else Fail(Wrapped(ReadFailed)))
    {
      var name := StagedFileName(table);
      assert name[|name| - 4..] == ".sav";
      StagingTarget(fs.dirs - {dir}, fs.files, dir, name);
      assert fs.dirs - {dir} + {dir} == fs.dirs;
      var created := fs.CreateFile(StagedFile(dir));
      if created.Fail? {
        return Fail(Wrapped(created.error));
      }
      r := if fileStreamProvider.drains then Pass else Fail(Wrapped(ReadFailed));
    }

    /**
     * The `try` block of `ensureInitialized`: requests a stream, creates a fresh directory under
     * `work.dir` and copies the stream into it. Nothing but the work directory field changes here.
     */
    method Stage(fs: FileSystem) returns (r: Outcome<Exception>)
      requires Valid() && fs.Valid() && ReadyToStage()
      modifies this`tmpdir, fs, fileStreamProvider
      ensures fs.Valid()
      ensures fileStreamProvider.requests == old(fileStreamProvider.requests) + 1
      // A failure before the directory exists stages nothing.
      ensures !old(CanStage(fs)) ==>
                && tmpdir == old(tmpdir) && fs.dirs == old(fs.dirs) && fs.files == old(fs.files)
                && r == (if !fileStreamProvider.opens then Fail(Wrapped(StreamUnavailable))
                         else if "work.dir" !in properties.value then Fail(NullPointer)
                         else Fail(Wrapped(NoSuchFile(properties.value["work.dir"]))))
      // Otherwise a new work directory is created, whatever happens next.
      ensures old(CanStage(fs)) ==>
                && tmpdir.Some? && IsChild(properties.value["work.dir"], tmpdir.value)
                && tmpdir.value !in old(fs.dirs) && tmpdir.value !in old(fs.files)
                && fs.dirs == old(fs.dirs) + {tmpdir.value}
                && StagedFile(tmpdir.value) == Child(tmpdir.value, Leaf(StagedFileName(table)))
      // A staged name that still holds a separator lies in a missing subdirectory: the copy fails.
      ensures old(CanStage(fs)) && !Stageable(table) ==>
                fs.files == old(fs.files) && r == Fail(Wrapped(NoSuchFile(StagedFile(tmpdir.value))))
      // Otherwise the staged file is created directly in the new directory and the stream drained.
      ensures old(CanStage(fs)) && Stageable(table) ==>
                && IsChild(tmpdir.value, StagedFile(tmpdir.value))
                && fs.files == old(fs.files) + {StagedFile(tmpdir.value)}
                && r == (if fileStreamProvider.drains then Pass else Fail(Wrapped(ReadFailed)))
    {
      var props := properties.value;
      var available := fileStreamProvider.GetInputStream();
      if !available {
        return Fail(Wrapped(StreamUnavailable));
      }
      if "work.dir" !in props {
        return Fail(NullPointer);
      }
      var created := fs.CreateTempDirectory(props["work.dir"]);
      if created.Failure? {
        return Fail(Wrapped(created.error));
      }
      tmpdir := Some(created.value);
      ChildEnd(props["work.dir"], created.value);
      assert fs.dirs - {created.value} == old(fs.dirs);
      r := CopyStream(fs, created.value);
    }

    /**
     * The decoding half of `ensureInitialized`: the factory is set up from the properties and the
     * staged `file`; a datasource that was created is kept even when its initialisation fails,
     * and only complete success marks the source initialised.
     */
    method Load(file: string, decode: DecoderSettings -> Decoding) returns (r: Outcome<Exception>)
      requires properties.Some?
      modifies this`initialized, this`datasource
      ensures var decoding := decode(Settings(path, properties.value, file));
              && (initialized <==> decoding.Decoded?)
              && r == (if decoding.Decoded? then Pass else Fail(DecoderFailure))
              && datasource == (match decoding
                                case CreateFailed => old(datasource)
                                case InitialiseFailed(ds) => Some(ds)
                                case Decoded(ds) => Some(ds))
    {
      var decoding := decode(Settings(path, properties.value, file));
      if !decoding.CreateFailed? {
        datasource := Some(if decoding.Decoded? then decoding.datasource else decoding.created);
      }
      initialized := decoding.Decoded?;
      r := if decoding.Decoded? then Pass else Fail(DecoderFailure);
    }

    /**
     * `getValueTable`, with `ensureInitialized` inlined. A source not yet initialised stages the
     * stream (`Stage`) and decodes the copy (`Load`); only complete success marks it initialised.
     * The answer then comes from the cached datasource.
     */
    method GetValueTable(fs: FileSystem, decode: DecoderSettings -> Decoding)
      returns (r: Result<ValueTable, Exception>)
      requires Valid() && fs.Valid()
      modifies this, fs, fileStreamProvider
      ensures Valid() && fs.Valid()
      ensures properties == old(properties) && fileStreamProvider == old(fileStreamProvider)
      ensures initialized ==> r == SelectTable(datasource.value, table)
      // An initialised source answers from its cache and neither stages nor requests a stream.
      ensures old(initialized) ==> initialized && datasource == old(datasource) && tmpdir == old(tmpdir)
      ensures old(initialized) ==> fs.dirs == old(fs.dirs) && fs.files == old(fs.files)
      ensures old(initialized) && fileStreamProvider != null ==>
                fileStreamProvider.requests == old(fileStreamProvider.requests)
      // Not configured or not bound: a null dereference before anything happens.
      ensures !old(initialized) && !old(ReadyToStage()) ==>
                r == Failure(NullPointer) && unchanged(this) && unchanged(fs)
      // Without properties the null dereference comes before any stream is requested.
      ensures !old(ReadyToStage()) && fileStreamProvider != null ==>
                fileStreamProvider.requests == old(fileStreamProvider.requests)
      // Otherwise exactly one stream is requested.
      ensures old(ReadyToStage()) ==>
                fileStreamProvider.requests == old(fileStreamProvider.requests) + 1
      // A failure before the directory exists stages nothing.
      ensures old(ReadyToStage()) && !old(CanStage(fs)) ==>
                && !initialized && datasource == old(datasource) && tmpdir == old(tmpdir)
                && fs.dirs == old(fs.dirs) && fs.files == old(fs.files)
                && r == (if !fileStreamProvider.opens then Failure(Wrapped(StreamUnavailable))
                         else if "work.dir" !in properties.value then Failure(NullPointer)
                         else Failure(Wrapped(NoSuchFile(properties.value["work.dir"]))))
      // Otherwise a new work directory is created, whatever happens next.
      ensures old(CanStage(fs)) ==>
                && tmpdir.Some? && IsChild(properties.value["work.dir"], tmpdir.value)
                && tmpdir.value !in old(fs.dirs) && tmpdir.value !in old(fs.files)
                && fs.dirs == old(fs.dirs) + {tmpdir.value}
                && StagedFile(tmpdir.value) == Child(tmpdir.value, Leaf(StagedFileName(table)))
      // A staged name that still holds a separator lies in a missing subdirectory: the copy fails.
      ensures old(CanStage(fs)) && !Stageable(table) ==>
                && !initialized && datasource == old(datasource) && fs.files == old(fs.files)
                && r == Failure(Wrapped(NoSuchFile(StagedFile(tmpdir.value))))
      // Otherwise the staged file is created directly in the new directory.
      ensures old(CanStage(fs)) && Stageable(table) ==>
                && IsChild(tmpdir.value, StagedFile(tmpdir.value))
                && fs.files == old(fs.files) + {StagedFile(tmpdir.value)}
      ensures old(CanStage(fs)) && Stageable(table) && !fileStreamProvider.drains ==>
                !initialized && datasource == old(datasource) && r == Failure(Wrapped(ReadFailed))
      ensures old(CanStage(fs)) && Stageable(table) && fileStreamProvider.drains ==>
                var decoding := decode(Settings(path, properties.value, StagedFile(tmpdir.value)));
                && (initialized <==> decoding.Decoded?)
                && datasource == (match decoding
                                  case CreateFailed => old(datasource)
                                  case InitialiseFailed(ds) => Some(ds)
                                  case Decoded(ds) => Some(ds))
                && (!decoding.Decoded? ==> r == Failure(DecoderFailure))
    {
      if !initialized {
        if properties.None? || fileStreamProvider == null {
          return Failure(NullPointer);
        }
        var staged := Stage(fs);
        if staged.Fail? {
          return Failure(staged.error);
        }
        var loaded := Load(StagedFile(tmpdir.value), decode);
        if loaded.Fail? {
          return Failure(loaded.error);
        }
      }
      r := SelectTable(datasource.value, table);
    }

    /**
     * `dispose`: removes the current work directory when there is one and it exists; a failed
     * removal is swallowed. The field keeps its value.
     */
    method Dispose(fs: FileSystem)
      requires fs.Valid()
      modifies fs
      ensures fs.Valid()
      ensures tmpdir.Some? && old(fs.Exists(tmpdir.value))
              && old(Removable(fs.dirs, fs.files, fs.locked, tmpdir.value)) ==>
                && fs.dirs == (set p | p in old(fs.dirs) && !InSubtree(tmpdir.value, p))
                && fs.files == (set p | p in old(fs.files) && !InSubtree(tmpdir.value, p))
      ensures !(tmpdir.Some? && old(fs.Exists(tmpdir.value))
                && old(Removable(fs.dirs, fs.files, fs.locked, tmpdir.value))) ==>
                fs.dirs == old(fs.dirs) && fs.files == old(fs.files)
      ensures tmpdir.Some? && old(Removable(fs.dirs, fs.files, fs.locked, tmpdir.value)) ==>
                !fs.Exists(tmpdir.value)
    {
      if tmpdir.Some? && fs.Exists(tmpdir.value) {
        var _ := fs.Delete(tmpdir.value);
      }
    }
  }

  /**
   * Two reads with no rebinding in between: when the first leaves the source initialised
   * (`cached`), as every successful read does, the second gives the same answer from the cache,
   * and at most one stream was requested in all.
   */
  method ReadTwice(src: SpssTableSource, fs: FileSystem, decode: DecoderSettings -> Decoding)
    returns (first: Result<ValueTable, Exception>, second: Result<ValueTable, Exception>,
             ghost cached: bool)
    requires src.Valid() && fs.Valid()
    modifies src, fs, src.fileStreamProvider
    ensures src.Valid() && src.fileStreamProvider == old(src.fileStreamProvider)
    ensures first.Success? ==> cached
    ensures cached ==> src.initialized && second == first
    ensures cached && src.fileStreamProvider != null ==>
              src.fileStreamProvider.requests <= old(src.fileStreamProvider.requests) + 1
  {
    first := src.GetValueTable(fs, decode);
    cached := src.initialized;
    second := src.GetValueTable(fs, decode);
  }

  /** Binding a provider, even the same one again, makes the next read request a new stream. */
  method RebindThenRead(src: SpssTableSource, provider: StreamProvider, fs: FileSystem,
                        decode: DecoderSettings -> Decoding)
    returns (r: Result<ValueTable, Exception>)
    requires src.Valid() && fs.Valid() && src.properties.Some?
    modifies src, fs, provider
    ensures src.Valid() && src.fileStreamProvider == provider
    ensures provider.requests == old(provider.requests) + 1
  {
    src.SetStudyTableFileStreamProvider(provider);
    r := src.GetValueTable(fs, decode);
  }

  /** A second `dispose` changes nothing: two calls have the contract of one. */
  method DisposeTwice(src: SpssTableSource, fs: FileSystem)
    requires fs.Valid()
    modifies fs
    ensures src.tmpdir.Some? && old(fs.Exists(src.tmpdir.value))
            && old(Removable(fs.dirs, fs.files, fs.locked, src.tmpdir.value)) ==>
              && fs.dirs == (set p | p in old(fs.dirs) && !InSubtree(src.tmpdir.value, p))
              && fs.files == (set p | p in old(fs.files) && !InSubtree(src.tmpdir.value, p))
    ensures !(src.tmpdir.Some? && old(fs.Exists(src.tmpdir.value))
              && old(Removable(fs.dirs, fs.files, fs.locked, src.tmpdir.value))) ==>
              fs.dirs == old(fs.dirs) && fs.files == old(fs.files)
  {
    src.Dispose(fs);
    src.Dispose(fs);
  }

  /**
   * Staging, rebinding, staging again and disposing: each staging took its own directory, and
   * `dispose` removes only the second, so the first is left behind, with its staged file when
   * the table name let the copy succeed.
   */
  method RestageThenDispose(src: SpssTableSource, provider: StreamProvider, fs: FileSystem,
                            decode: DecoderSettings -> Decoding)
    returns (first: string, second: string)
    requires src.Valid() && fs.Valid() && !src.initialized && src.fileStreamProvider == provider
    requires provider.opens && provider.drains
    requires src.properties.Some? && "work.dir" in src.properties.value
    requires src.properties.value["work.dir"] in fs.dirs
    requires forall s :: decode(s).Decoded?
    requires fs.locked == {}
    modifies src, fs, provider
    ensures first != second
    ensures first in fs.dirs
    ensures Stageable(src.table) ==> src.StagedFile(first) in fs.files
    ensures !fs.Exists(second)
    ensures provider.requests == old(provider.requests) + 2
  {
    var w := src.properties.value["work.dir"];
    var _ := src.GetValueTable(fs, decode);
    first := src.tmpdir.value;
    src.SetStudyTableFileStreamProvider(provider);
    var _ := src.GetValueTable(fs, decode);
    second := src.tmpdir.value;
    assert first != second;
    ChildSubtree(w, second, first);
    if Stageable(src.table) {
      var staged := src.StagedFile(first);
      assert staged in fs.files;
      ChildSubtree(w, first, staged);
      ChildSubtree(w, second, staged);
    }
    src.Dispose(fs);
  }
}
