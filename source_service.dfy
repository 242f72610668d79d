/**
 * `SpssStudyTableSourceService`: recognises the URNs of `.sav` files, builds table sources for
 * them, and sweeps the shared work directory when the plugin stops.
 */
module SpssService {
  import opened Wrappers
  import opened JavaStrings
  import opened Exceptions
  import opened Files
  import opened SpssUrn
  import opened SpssTables

  const Name: string := "mica-source-spss"

  /**
   * `isFor`: false for a null or empty source and for one without the prefix; otherwise whether
   * the third `:`-separated token ends with ".sav", ignoring case.
   */
  function IsFor(source: Option<string>): (b: bool)
    ensures b ==> source.Some? && StartsWith(source.value, Prefix)
    ensures b ==> Parse(source).Success?
  {
    if IsNullOrEmpty(source) || !StartsWith(source.value, Prefix) then false
    else
      var tokens := Split(source.value, ':');
      |tokens| > 2 && EndsWith(ToLower(tokens[2]), ".sav")
  }

  /** The tokens of a URN are "urn", "file", then the tokens of what follows the prefix. */
  lemma SplitUrn(u: string)
    requires StartsWith(u, Prefix)
    ensures Split(u, ':') == ["urn", "file"] + Split(u[|Prefix|..], ':')
  {
    var rest := u[|Prefix|..];
    assert u == "urn" + ([':'] + ("file" + ([':'] + rest)));
    SplitAfter("file", rest, ':');
    SplitAfter("urn", "file" + ([':'] + rest), ':');
  }

  /** Once the prefix is there, there are always at least three tokens, so the size test never decides. */
  lemma TokenCountGuardRedundant(u: string)
    requires StartsWith(u, Prefix)
    ensures |Split(u, ':')| > 2
  {
    SplitUrn(u);
  }

  /** The third token is the text between the prefix and the next colon (or the end). */
  lemma IsForThirdToken(source: Option<string>)
    ensures IsFor(source) <==>
      && source.Some? && StartsWith(source.value, Prefix)
      && EndsWith(ToLower(UpTo(source.value[|Prefix|..], ':')), ".sav")
  {
    if source.Some? && StartsWith(source.value, Prefix) {
      var u := source.value;
      SplitUrn(u);
      var tail := Split(u[|Prefix|..], ':');
      assert Split(u, ':')[2] == tail[0] == UpTo(u[|Prefix|..], ':');
    }
  }

  /** A recognised URN is also one `fromURN` accepts. */
  lemma IsForThenParses(source: Option<string>)
    requires IsFor(source)
    ensures Parse(source).Success?
  {
  }

  /** With a table, only the path before the first colon is tested. */
  lemma IsForWithTable(path: string, t: string)
    requires ':' !in path
    ensures IsFor(Some(Prefix + path + [':'] + t)) <==> EndsWith(ToLower(path), ".sav")
  {
    var u := Prefix + path + [':'] + t;
    IsForThirdToken(Some(u));
    assert u[..|Prefix|] == Prefix && u[|Prefix|..] == path + [':'] + t;
    UpToBefore(path, ':', t);
  }

  /** The extension test ignores case, and a table after the file does not matter. */
  lemma IsForUpperCaseExtension(u: string)
    requires u == Prefix + "/d/s.SAV" + [':'] + "t"
    ensures IsFor(Some(u))
  {
    var path := "/d/s.SAV";
    IsForWithTable(path, "t");
    assert ToLower(path)[4..] == ".sav";
  }

  /** Without a table, the whole remainder is the third token. */
  lemma IsForFileOnly(rest: string)
    requires ':' !in rest
    ensures IsFor(Some(Prefix + rest)) <==> EndsWith(ToLower(rest), ".sav")
  {
    var u := Prefix + rest;
    IsForThirdToken(Some(u));
    assert u[..|Prefix|] == Prefix && u[|Prefix|..] == rest;
    assert UpTo(rest, ':') == rest;
  }

  /** Only the end of the third token counts: a later extension hides ".sav". */
  lemma IsForLaterExtension(path: string)
    requires ':' !in path
    ensures !IsFor(Some(Prefix + (path + ".bak")))
  {
    var rest := path + ".bak";
    assert forall k :: 0 <= k < |rest| ==> rest[k] != ':' by {
      forall k | 0 <= k < |rest| ensures rest[k] != ':' {
        if k < |path| { assert rest[k] == path[k]; }
      }
    }
    IsForFileOnly(rest);
    var lower := ToLower(rest);
    assert lower[|lower| - 3] == LowerChar(rest[|rest| - 3]) == 'b';
    assert lower[|lower| - 4..][1] != ".sav"[1];
  }

  /** The prefix alone leaves an empty third token, which does not end with ".sav". */
  lemma IsForEmptyToken(u: string)
    requires u == Prefix
    ensures !IsFor(Some(u)) && !IsFor(None) && !IsFor(Some(""))
  {
    var rest: string := [];
    IsForFileOnly(rest);
    assert Prefix + rest == u;
  }

  /**
   * The `stop` sweep removes `p` when `p` is an immediate subdirectory of the work directory
   * `w`, or lies below one, and that subdirectory can be removed as a whole.
   */
  ghost predicate Reaped(dirs: set<string>, files: set<string>, locked: set<string>, w: string, p: string) {
    && w in dirs
    && ChildOf(w, p).Some?
    && ChildOf(w, p).value in dirs
    && Removable(dirs, files, locked, ChildOf(w, p).value)
  }

  /** The part of the sweep already done: the subdirectories in `done` that could be removed. */
  ghost predicate SweptBy(dirs: set<string>, files: set<string>, locked: set<string>, w: string,
                          done: set<string>, p: string)
  {
    && ChildOf(w, p).Some?
    && ChildOf(w, p).value in done
    && Removable(dirs, files, locked, ChildOf(w, p).value)
  }

  /**
   * The sweep spares the work directory itself and the regular files directly inside it.
   */
  lemma ReapedScope(dirs: set<string>, files: set<string>, locked: set<string>, w: string, p: string)
    requires Tree(dirs, files)
    ensures !Reaped(dirs, files, locked, w, w)
    ensures IsChild(w, p) && p in files ==> !Reaped(dirs, files, locked, w, p)
  {
    assert !StartsWith(w, w + [Separator]);
  }

  class SpssStudyTableSourceService {
    var properties: Option<map<string, string>>

    constructor (properties: Option<map<string, string>>)
      ensures this.properties == properties
    {
      this.properties := properties;
    }

    /** `getName`, whatever the state. */
    function GetName(): (name: string)
      ensures name == "mica-source-spss"
    {
      Name
    }

    /** `makeSource`: `fromURN` and then `configure` with the service's properties. */
    method MakeSource(source: Option<string>) returns (r: Result<SpssTableSource, Exception>)
      ensures Parse(source).Failure? ==> r == Failure(Parse(source).error)
      ensures Parse(source).Success? ==>
        && r.Success? && fresh(r.value) && r.value.Valid()
        && r.value.Named() == Parse(source).value
        && r.value.properties == properties
        && !r.value.initialized && r.value.datasource.None?
        && r.value.fileStreamProvider == null && r.value.tmpdir.None?
    {
      r := SpssTableSource.FromUrn(source);
      if r.Success? {
        r.value.Configure(properties);
      }
    }

    /**
     * `stop`: when the work directory exists, tries to remove each of its immediate
     * subdirectories, ignoring failures; regular files are left alone. A missing `work.dir`
     * property (or missing properties) is a null dereference.
     */
    method Stop(fs: FileSystem) returns (r: Outcome<Exception>)
      requires fs.Valid()
      modifies fs
      ensures fs.Valid()
      ensures properties.None? || "work.dir" !in properties.value ==>
                r == Fail(NullPointer) && fs.dirs == old(fs.dirs) && fs.files == old(fs.files)
      ensures properties.Some? && "work.dir" in properties.value ==>
                var w := properties.value["work.dir"];
                && r == Pass
                && fs.dirs == (set p | p in old(fs.dirs) && !Reaped(old(fs.dirs), old(fs.files), fs.locked, w, p))
                && fs.files == (set p | p in old(fs.files) && !Reaped(old(fs.dirs), old(fs.files), fs.locked, w, p))
    {
      if properties.None? || "work.dir" !in properties.value {
        return Fail(NullPointer);
      }
      var w := properties.value["work.dir"];
      r := Pass;
      if !fs.Exists(w) || w !in fs.dirs {
        return;
      }
      ghost var dirs0, files0 := fs.dirs, fs.files;
      var children := set c | c in fs.dirs && IsChild(w, c);
      var pending := children;
      while pending != {}
        invariant fs.Valid() && pending <= children
        invariant fs.dirs == set p | p in dirs0 && !SweptBy(dirs0, files0, fs.locked, w, children - pending, p)
        invariant fs.files == set p | p in files0 && !SweptBy(dirs0, files0, fs.locked, w, children - pending, p)
        decreases pending
      {
        var c :| c in pending;
        ghost var done := children - pending;
        forall p ensures InSubtree(c, p) <==> ChildOf(w, p) == Some(c) {
          ChildSubtree(w, c, p);
        }
        assert Removable(fs.dirs, fs.files, fs.locked, c) == Removable(dirs0, files0, fs.locked, c);
        var _ := fs.Delete(c);
        pending := pending - {c};
        assert children - pending == done + {c};
      }
      forall p | ChildOf(w, p).Some? ensures ChildOf(w, p).value in children <==> ChildOf(w, p).value in dirs0 {
        ChildOfIsChild(w, p);
      }
    }
  }
}
