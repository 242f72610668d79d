/**
 * The URN locator of an SPSS table source: `urn:file:<path>[:<table>]`.
 * `Parse` is `SpssTableSource.fromURN` without the object it builds, `Format` is `getURN`.
 */
module SpssUrn {
  import opened Wrappers
  import opened JavaStrings
  import opened Exceptions

  const Prefix: string := "urn:file:"

  /** What a URN names: a file path and a table name, `None` standing for Java's `null` table. */
  datatype Locator = Locator(path: string, table: Option<string>)

  function InvalidUrnMessage(source: Option<string>): string {
    "Not a valid SPSS table source URN: " + (if source.None? then "null" else source.value)
  }

  /**
   * `loc` is `full` split at its last colon, provided that colon is beyond index 0;
   * otherwise `full` is all path and there is no table.
   */
  predicate SplitAtLastColon(full: string, loc: Locator) {
    match loc.table
    case None => loc.path == full && forall j :: 0 < j < |full| ==> full[j] != ':'
    case Some(t) => full == loc.path + ":" + t && loc.path != "" && ':' !in t
  }

  lemma ColonAfterPath(full: string, loc: Locator)
    requires loc.table.Some? && SplitAtLastColon(full, loc)
    ensures 0 < |loc.path| < |full| && full[|loc.path|] == ':'
  {
  }

  /** At most one locator is the split of a given text, so `Parse`'s contract determines its result. */
  lemma SplitAtLastColonUnique(full: string, a: Locator, b: Locator)
    requires SplitAtLastColon(full, a) && SplitAtLastColon(full, b)
    ensures a == b
  {
    if a.table.Some? && b.table.Some? {
      var n, m := |a.path|, |b.path|;
      assert full[n] == ':' && full[m] == ':';
      assert n == m;
      assert a.path == full[..n] && b.path == full[..m];
      assert a.table.value == full[n + 1..] && b.table.value == full[m + 1..];
    } else if a.table.Some? {
      ColonAfterPath(full, a);
      assert false;
    } else if b.table.Some? {
      ColonAfterPath(full, b);
      assert false;
    }
  }

  /**
   * `fromURN`: refuses a null or empty source and one without the prefix; otherwise removes
   * every occurrence of the prefix and splits what is left at its last colon beyond index 0.
   */
  function Parse(source: Option<string>): (r: Result<Locator, Exception>)
    ensures r.Failure? <==> source.None? || !StartsWith(source.value, Prefix)
    ensures r.Failure? ==> r.error == IllegalArgument(InvalidUrnMessage(source))
    ensures r.Success? ==> SplitAtLastColon(RemoveAll(source.value, Prefix), r.value)
  {
    if IsNullOrEmpty(source) || !StartsWith(source.value, Prefix) then
      Failure(IllegalArgument(InvalidUrnMessage(source)))
    else
      var full := RemoveAll(source.value, Prefix);
      var sep := LastIndexOf(full, ':');
      var file := if sep > 0 then full[..sep] else full;
      var table := if sep > 0 then Some(full[sep + 1..]) else None;
      assert sep > 0 ==> full == file + ":" + table.value;
      Success(Locator(file, table))
  }

  /** `getURN`: a null or empty table is left out. */
  function Format(loc: Locator): (u: string)
    ensures StartsWith(u, Prefix) && |u| <= |Prefix| + |loc.path| + 1 + (if loc.table.Some? then |loc.table.value| else 0)
  {
    if IsNullOrEmpty(loc.table) then Prefix + loc.path else Prefix + loc.path + ":" + loc.table.value
  }

  /** The prefix is removed from the front, and then from whatever follows. */
  lemma DropPrefix(x: string)
    ensures RemoveAll(Prefix + x, Prefix) == RemoveAll(x, Prefix)
  {
    assert (Prefix + x)[..|Prefix|] == Prefix;
    assert (Prefix + x)[|Prefix|..] == x;
  }

  /** A character other than the prefix's first is kept, and the scan moves on. */
  lemma KeepFirst(c: char, x: string)
    requires c != Prefix[0]
    ensures RemoveAll([c] + x, Prefix) == [c] + RemoveAll(x, Prefix)
  {
    var t := [c] + x;
    if |t| >= |Prefix| {
      assert t[..|Prefix|][0] != Prefix[0];
      assert t[1..] == x;
    }
  }

  /** A URN whose remainder holds no second prefix parses to the split of that remainder. */
  lemma ParseCanonical(rest: string, loc: Locator)
    requires !Contains(rest, Prefix) && SplitAtLastColon(rest, loc)
    ensures Parse(Some(Prefix + rest)) == Success(loc)
  {
    var u := Prefix + rest;
    assert u[..|Prefix|] == Prefix && u[|Prefix|..] == rest;
    DropPrefix(rest);
    RemoveAllAbsent(rest, Prefix);
    SplitAtLastColonUnique(rest, loc, Parse(Some(u)).value);
  }

  /** A successful parse is determined by the text left once every prefix is removed. */
  lemma ParseBySplit(u: string, loc: Locator)
    requires StartsWith(u, Prefix) && SplitAtLastColon(RemoveAll(u, Prefix), loc)
    ensures Parse(Some(u)) == Success(loc)
  {
    SplitAtLastColonUnique(RemoveAll(u, Prefix), loc, Parse(Some(u)).value);
  }

  /**
   * The URNs that survive a parse and a re-serialisation unchanged: after the prefix, no further
   * occurrence of the prefix, and no trailing colon beyond index 0 (whose empty table is dropped).
   */
  predicate Canonical(u: string)
    requires StartsWith(u, Prefix)
  {
    var rest := u[|Prefix|..];
    !Contains(rest, Prefix) && !(|rest| > 1 && rest[|rest| - 1] == ':')
  }

  /** Serialising a split is never longer than the split text, and shorter when the table is empty. */
  lemma FormatOfSplitLength(full: string, loc: Locator)
    requires SplitAtLastColon(full, loc)
    ensures |Format(loc)| <= |Prefix| + |full|
    ensures loc.table == Some("") ==> |Format(loc)| < |Prefix| + |full|
  {
    if loc.table.Some? {
      assert |full| == |loc.path| + 1 + |loc.table.value|;
    }
  }

  /** Serialising a split with a non-empty table, or none, restores the prefixed text. */
  lemma FormatOfSplit(full: string, loc: Locator)
    requires SplitAtLastColon(full, loc) && loc.table != Some("")
    ensures Format(loc) == Prefix + full
    ensures !(|full| > 1 && full[|full| - 1] == ':')
  {
    match loc.table
    case None =>
    case Some(t) =>
      assert Format(loc) == Prefix + (loc.path + ":" + t);
      assert full[|full| - 1] == t[|t| - 1];
  }

  lemma ParseThenFormat(u: string)
    requires StartsWith(u, Prefix)
    ensures Parse(Some(u)).Success?
    ensures Format(Parse(Some(u)).value) == u <==> Canonical(u)
  {
    var rest := u[|Prefix|..];
    assert u == Prefix + rest;
    DropPrefix(rest);
    var full := RemoveAll(rest, Prefix);
    var loc := Parse(Some(u)).value;
    FormatOfSplitLength(full, loc);
    if Contains(rest, Prefix) {
      RemoveAllShrinks(rest, Prefix);
    } else {
      RemoveAllAbsent(rest, Prefix);
      if loc.table == Some("") {
        assert rest[|rest| - 1] == ':' && |rest| > 1;
      } else {
        FormatOfSplit(rest, loc);
      }
    }
  }

  /**
   * The locators a URN can name: a table, when present, is non-empty, colon-free and follows a
   * non-empty path; without a table the path has no colon beyond index 0; and the serialised
   * text holds no second prefix.
   */
  predicate WellFormed(loc: Locator) {
    && (match loc.table
        case None => forall j :: 0 < j < |loc.path| ==> loc.path[j] != ':'
        case Some(t) => t != "" && ':' !in t && loc.path != "")
    && !Contains(Format(loc)[|Prefix|..], Prefix)
  }

  lemma FormatThenParse(loc: Locator)
    requires WellFormed(loc)
    ensures Parse(Some(Format(loc))) == Success(loc)
  {
    var u := Format(loc);
    var rest := u[|Prefix|..];
    assert u == Prefix + rest;
    DropPrefix(rest);
    RemoveAllAbsent(rest, Prefix);
    assert SplitAtLastColon(rest, loc) by {
      if loc.table.Some? { assert u == Prefix + (loc.path + ":" + loc.table.value); }
    }
    ParseBySplit(u, loc);
  }

  /** Characters other than the prefix's first are all kept, and the scan moves on past them. */
  lemma {:induction false} KeepAll(a: string, x: string)
    requires Prefix[0] !in a
    ensures RemoveAll(a + x, Prefix) == a + RemoveAll(x, Prefix)
    decreases |a|
  {
    if a == [] {
      assert a + x == x;
    } else {
      assert a + x == [a[0]] + (a[1..] + x);
      KeepFirst(a[0], a[1..] + x);
      KeepAll(a[1..], x);
      assert [a[0]] + (a[1..] + RemoveAll(x, Prefix)) == a + RemoveAll(x, Prefix);
    }
  }

  /** Every occurrence of the prefix is removed, not only the leading one. */
  lemma ParseInnerPrefix(a: string, b: string)
    requires Prefix[0] !in a && ':' !in a && ':' !in b && !Contains(b, Prefix)
    ensures Parse(Some(Prefix + (a + (Prefix + b)))) == Success(Locator(a + b, None))
  {
    var u := Prefix + (a + (Prefix + b));
    assert u[..|Prefix|] == Prefix;
    DropPrefix(a + (Prefix + b));
    KeepAll(a, Prefix + b);
    DropPrefix(b);
    RemoveAllAbsent(b, Prefix);
    assert RemoveAll(u, Prefix) == a + b;
    assert forall j :: 0 <= j < |a + b| ==> (a + b)[j] != ':' by {
      forall j | 0 <= j < |a + b| ensures (a + b)[j] != ':' {
        if j < |a| { assert (a + b)[j] == a[j]; } else { assert (a + b)[j] == b[j - |a|]; }
      }
    }
    ParseBySplit(u, Locator(a + b, None));
  }

  /** Without a table the path keeps its `.sav` extension. */
  lemma ExamplePathOnly(u: string)
    requires u == Prefix + "/data/study1.sav"
    ensures Parse(Some(u)) == Success(Locator("/data/study1.sav", None))
    ensures Format(Locator("/data/study1.sav", None)) == u
  {
    var rest := "/data/study1.sav";
    assert Prefix[3] !in rest;
    MissingChar(rest, Prefix, 3);
    ParseCanonical(rest, Locator(rest, None));
  }

  lemma ExampleNamedTable(u: string)
    requires u == Prefix + "/data/study1.sav" + ":" + "baseline"
    ensures Parse(Some(u)) == Success(Locator("/data/study1.sav", Some("baseline")))
  {
    var path, t := "/data/study1.sav", "baseline";
    var rest := path + ":" + t;
    assert Prefix[1] !in rest;
    MissingChar(rest, Prefix, 1);
    assert u == Prefix + rest;
    ParseCanonical(rest, Locator(path, Some(t)));
  }

  /** A trailing colon gives an empty table, which serialisation then drops. */
  lemma ExampleEmptyTable(u: string)
    requires u == Prefix + "a.sav" + ":"
    ensures Parse(Some(u)) == Success(Locator("a.sav", Some("")))
    ensures Format(Locator("a.sav", Some(""))) == Prefix + "a.sav"
  {
    var path := "a.sav";
    var rest := path + ":" + "";
    assert Prefix[1] !in rest;
    MissingChar(rest, Prefix, 1);
    assert u == Prefix + rest;
    ParseCanonical(rest, Locator(path, Some("")));
  }

  /** The split takes the last colon, so a drive letter without a table is read as the path. */
  lemma ExampleDriveLetter(u: string)
    requires u == Prefix + "C" + ":" + "/d/s.sav"
    ensures Parse(Some(u)) == Success(Locator("C", Some("/d/s.sav")))
  {
    var path, t := "C", "/d/s.sav";
    var rest := path + ":" + t;
    assert Prefix[0] !in rest;
    MissingChar(rest, Prefix, 0);
    assert u == Prefix + rest;
    ParseCanonical(rest, Locator(path, Some(t)));
  }

  /** A colon at index 0 does not split. */
  lemma ExampleLeadingColon()
    ensures Parse(Some("urn:file::t")) == Success(Locator(":t", None))
  {
  }

  lemma ExampleRefused()
    ensures Parse(None) == Failure(IllegalArgument("Not a valid SPSS table source URN: null"))
    ensures Parse(Some("")).Failure?
    ensures Parse(Some("file:a.sav")).Failure?
  {
    assert "file:a.sav"[..|Prefix|][0] != Prefix[0];
    var r := Parse(None);
    assert r.error == IllegalArgument(InvalidUrnMessage(None));
    assert InvalidUrnMessage(None) == "Not a valid SPSS table source URN: null";
  }
}
