/** The folder loop of main.py (`process_folder_to_csv`): every file of the
    listing whose name ends in ".xml" is flattened, and the tables are
    concatenated in listing order. The listing and what parsing each file
    yields are inputs of the model. */
module Aggregator {
  import opened Flattener

  /** `filename.endswith(".xml")`. */
  predicate IsXmlName(name: string)
  {
    |name| >= 4 && name[|name| - 4..] == ".xml"
  }

  /** The rows of the folder whose listing is `names`, where `read(n)` is
      what `ET.parse` makes of the file `n`: each ".xml" file's table in
      turn; other names are skipped. */
  function FolderRows(names: seq<string>, read: string -> Document): seq<Row>
  {
    if names == [] then []
    else
      var name := names[|names| - 1];
      FolderRows(names[..|names| - 1], read) + (if IsXmlName(name) then DocumentRows(read(name)) else [])
  }

  /** The ".xml" names of a listing, in listing order. */
  function XmlNames(names: seq<string>): (xs: seq<string>)
    ensures |xs| <= |names|
  {
    if names == [] then []
    else XmlNames(names[..|names| - 1]) + (if IsXmlName(names[|names| - 1]) then [names[|names| - 1]] else [])
  }

  /** The number of rows the listing contributes, added up file by file
      from the front. */
  function RowTotal(names: seq<string>, read: string -> Document): nat
  {
    if names == [] then 0
    else (if IsXmlName(names[0]) then |DocumentRows(read(names[0]))| else 0) + RowTotal(names[1..], read)
  }

  lemma FolderRowsStep(names: seq<string>, read: string -> Document, i: nat)
    requires i < |names|
    ensures FolderRows(names[..i + 1], read) ==
      FolderRows(names[..i], read) + (if IsXmlName(names[i]) then DocumentRows(read(names[i])) else [])
  {
    assert names[..i + 1][..i] == names[..i];
  }

  /** `process_folder_to_csv` up to the CSV write: `all_data` starts empty
      and each ".xml" file's table is appended to it. */
  method ProcessFolderToRows(names: seq<string>, read: string -> Document) returns (allData: seq<Row>)
    ensures allData == FolderRows(names, read)
  {
    allData := [];
    var i := 0;
    while i < |names|
      invariant 0 <= i <= |names|
      invariant allData == FolderRows(names[..i], read)
    {
      var filename := names[i];
      FolderRowsStep(names, read, i);
      if IsXmlName(filename) {
        var df := ParseXmlToRows(read(filename));
        allData := allData + df;
      }
      i := i + 1;
    }
    assert names[..i] == names;
  }

  /** A name passes the filter exactly when it is some stem followed by ".xml". */
  lemma IsXmlNameSpec(name: string)
    ensures IsXmlName(name) <==> exists stem :: name == stem + ".xml"
  {
    if IsXmlName(name) {
      assert name == name[..|name| - 4] + ".xml";
    }
    if exists stem :: name == stem + ".xml" {
      var stem :| name == stem + ".xml";
      assert name[|name| - 4..] == ".xml";
    }
  }

  /** Listing `a` and then `b` concatenates their tables. */
  lemma {:induction false} FolderRowsAppend(a: seq<string>, b: seq<string>, read: string -> Document)
    ensures FolderRows(a + b, read) == FolderRows(a, read) + FolderRows(b, read)
    decreases |b|
  {
    if b == [] {
      assert a + b == a;
    } else {
      var init := b[..|b| - 1];
      var name := b[|b| - 1];
      assert (a + b)[..|a + b| - 1] == a + init;
      FolderRowsAppend(a, init, read);
      var more := if IsXmlName(name) then DocumentRows(read(name)) else [];
      AppendAssoc(FolderRows(a, read), FolderRows(init, read), more);
    }
  }

  /** The combined row count is the sum of the per-file row counts. */
  lemma {:induction false} FolderRowsCount(names: seq<string>, read: string -> Document)
    ensures |FolderRows(names, read)| == RowTotal(names, read)
    decreases |names|
  {
    if names != [] {
      assert [names[0]] + names[1..] == names;
      FolderRowsAppend([names[0]], names[1..], read);
      assert [names[0]][..0] == [];
      FolderRowsCount(names[1..], read);
    }
  }

  /** XmlNames keeps exactly the ".xml" names of the listing. */
  lemma {:induction false} XmlNamesSpec(names: seq<string>)
    ensures forall n :: n in XmlNames(names) <==> n in names && IsXmlName(n)
    decreases |names|
  {
    if names != [] {
      var init := names[..|names| - 1];
      XmlNamesSpec(init);
      assert names == init + [names[|names| - 1]];
    }
  }

  /** Dropping the names that are not ".xml" files changes nothing. */
  lemma {:induction false} FolderRowsOnlyXml(names: seq<string>, read: string -> Document)
    ensures FolderRows(XmlNames(names), read) == FolderRows(names, read)
    decreases |names|
  {
    if names != [] {
      var init := names[..|names| - 1];
      var name := names[|names| - 1];
      FolderRowsOnlyXml(init, read);
      if IsXmlName(name) {
        assert XmlNames(names) == XmlNames(init) + [name];
        FolderRowsAppend(XmlNames(init), [name], read);
        assert [name][..0] == [];
      } else {
        assert XmlNames(names) == XmlNames(init);
        assert FolderRows(names, read) == FolderRows(init, read) + [];
      }
    }
  }

  /** A file that is skipped (its name does not end in ".xml") or whose
      table is empty (it failed to parse or to flatten) adds no rows;
      removing it from the listing leaves the result unchanged. */
  lemma FileAddsNothing(a: seq<string>, name: string, b: seq<string>, read: string -> Document)
    requires !IsXmlName(name) || DocumentRows(read(name)) == []
    ensures FolderRows(a + [name] + b, read) == FolderRows(a + b, read)
  {
    FolderRowsAppend(a + [name], b, read);
    FolderRowsAppend(a, [name], read);
    FolderRowsAppend(a, b, read);
    FolderRowsSingle(name, read);
    assert FolderRows([name], read) == [];
    assert FolderRows(a + [name], read) == FolderRows(a, read);
  }

  /** The table of a ".xml" file appears whole, between the rows of the
      files listed before it and those of the files listed after it. */
  lemma FileBlock(a: seq<string>, name: string, b: seq<string>, read: string -> Document)
    requires IsXmlName(name)
    ensures FolderRows(a + [name] + b, read) == FolderRows(a, read) + DocumentRows(read(name)) + FolderRows(b, read)
  {
    FolderRowsAppend(a + [name], b, read);
    FolderRowsAppend(a, [name], read);
    FolderRowsSingle(name, read);
  }

  lemma FolderRowsSingle(name: string, read: string -> Document)
    ensures FolderRows([name], read) == if IsXmlName(name) then DocumentRows(read(name)) else []
  {
    assert [name][..0] == [];
  }
}
