/** Worked cases of the flattener and the folder loop on small documents. */
module Scenarios {
  import opened ElementTree
  import opened Flattener
  import opened Aggregator
  import opened FlattenerProperties

  const InfoDoe: Element := Element("Info", map["indvlPK" := "100", "lastNm" := "Doe"], [])
  const Finra: Element := Element("CrntRgstn", map["regAuth" := "FINRA"], [])
  const Sec: Element := Element("CrntRgstn", map["regAuth" := "SEC"], [])
  const Rgstns: Element := Element("CrntRgstns", map[], [Finra, Sec])
  const Acme: Element := Element("CrntEmp", map["orgNm" := "Acme"], [Rgstns])
  const Emps: Element := Element("CrntEmps", map[], [Acme])
  const S7: Element := Element("Exm", map["exmCd" := "S7"], [])
  const Exms: Element := Element("Exms", map[], [S7])

  /** One individual, "Doe" with key 100, employed by "Acme" and holding two
      registrations there (FINRA, SEC), who passed one exam (S7). */
  const Doe: Element := Element("Indvl", map[], [InfoDoe, Emps, Exms])

  const Report: Element := Element("Root", map[], [Doe])

  /** `.//Indvl` finds the one individual. */
  lemma ReportIndividuals()
    ensures Individuals(Report) == [Doe]
  {
    var t := "Indvl";
    assert DescendantsIn([], t) == [];
    assert Descendants(Finra, t) == [] && Descendants(Sec, t) == [];
    assert DescendantsIn([Sec], t) == [];
    assert DescendantsIn([Finra, Sec], t) == [];
    assert Descendants(Rgstns, t) == [];
    assert DescendantsIn([Rgstns], t) == [];
    assert Descendants(Acme, t) == [];
    assert DescendantsIn([Acme], t) == [];
    assert Descendants(Emps, t) == [];
    assert Descendants(S7, t) == [];
    assert DescendantsIn([S7], t) == [];
    assert Descendants(Exms, t) == [];
    assert Descendants(InfoDoe, t) == [];
    assert DescendantsIn([Exms], t) == [];
    assert DescendantsIn([Emps, Exms], t) == [];
    assert DescendantsIn([InfoDoe, Emps, Exms], t) == [];
    assert Descendants(Doe, t) == [];
    assert DescendantsIn([Doe], t) == [Doe];
  }

  /** `.//CrntEmps/CrntEmp` finds Acme, `.//Exms/Exm` finds S7. */
  lemma DoeQueries()
    ensures Info(Doe) == Some(InfoDoe)
    ensures Employers(Doe) == [Acme]
    ensures Exams(Doe) == [S7]
  {
    assert FirstIndex(Doe.children, "Info") == Some(0);
    var t := "CrntEmps";
    assert DescendantsIn([], t) == [];
    assert Descendants(Finra, t) == [] && Descendants(Sec, t) == [];
    assert DescendantsIn([Sec], t) == [];
    assert DescendantsIn([Finra, Sec], t) == [];
    assert Descendants(Rgstns, t) == [];
    assert DescendantsIn([Rgstns], t) == [];
    assert Descendants(Acme, t) == [];
    assert DescendantsIn([Acme], t) == [];
    assert Descendants(Emps, t) == [];
    assert Descendants(S7, t) == [];
    assert DescendantsIn([S7], t) == [];
    assert Descendants(Exms, t) == [];
    assert Descendants(InfoDoe, t) == [];
    assert DescendantsIn([Exms], t) == [];
    assert DescendantsIn([Emps, Exms], t) == [Emps];
    assert DescendantsIn([InfoDoe, Emps, Exms], t) == [Emps];
    assert Tagged([], "CrntEmp") == [];
    assert Tagged([Acme], "CrntEmp") == [Acme];
    assert ChildrenOfAll([Emps], "CrntEmp") == [Acme];
    var u := "Exms";
    assert DescendantsIn([], u) == [];
    assert Descendants(Finra, u) == [] && Descendants(Sec, u) == [];
    assert DescendantsIn([Sec], u) == [];
    assert DescendantsIn([Finra, Sec], u) == [];
    assert Descendants(Rgstns, u) == [];
    assert DescendantsIn([Rgstns], u) == [];
    assert Descendants(Acme, u) == [];
    assert DescendantsIn([Acme], u) == [];
    assert Descendants(Emps, u) == [];
    assert Descendants(S7, u) == [];
    assert DescendantsIn([S7], u) == [];
    assert Descendants(Exms, u) == [];
    assert Descendants(InfoDoe, u) == [];
    assert DescendantsIn([Exms], u) == [Exms];
    assert DescendantsIn([Emps, Exms], u) == [Exms];
    assert DescendantsIn([InfoDoe, Emps, Exms], u) == [Exms];
    assert Tagged([], "Exm") == [];
    assert Tagged([S7], "Exm") == [S7];
    assert ChildrenOfAll([Exms], "Exm") == [S7];
  }

  /** `.//CrntRgstns/CrntRgstn` under Acme finds FINRA, then SEC. */
  lemma AcmeRegistrations()
    ensures Registrations(Acme) == [Finra, Sec]
  {
    var t := "CrntRgstns";
    assert DescendantsIn([], t) == [];
    assert Descendants(Finra, t) == [] && Descendants(Sec, t) == [];
    assert DescendantsIn([Sec], t) == [];
    assert DescendantsIn([Finra, Sec], t) == [];
    assert Descendants(Rgstns, t) == [];
    assert DescendantsIn([Rgstns], t) == [Rgstns];
    assert Tagged([], "CrntRgstn") == [];
    assert Tagged([Sec], "CrntRgstn") == [Sec];
    assert Tagged([Finra, Sec], "CrntRgstn") == [Finra, Sec];
    assert ChildrenOfAll([Rgstns], "CrntRgstn") == [Finra, Sec];
  }

  /** Doe's three rows: the two registrations in document order, then the
      exam. */
  lemma ReportRowsShape()
    ensures DocumentRows(Parsed(Report)) == [
      IndividualRecord(InfoDoe) + EmployerRecord(Acme) + RegistrationRecord(Finra),
      IndividualRecord(InfoDoe) + EmployerRecord(Acme) + RegistrationRecord(Sec),
      IndividualRecord(InfoDoe) + ExamRecord(S7)]
  {
    ReportIndividuals();
    DoeQueries();
    AcmeRegistrations();
    var base := IndividualRecord(InfoDoe);
    var empData := base + EmployerRecord(Acme);
    var r0 := empData + RegistrationRecord(Finra);
    var r1 := empData + RegistrationRecord(Sec);
    var r2 := base + ExamRecord(S7);
    assert RegistrationRows(empData, [Finra]) == [r0] by {
      assert [Finra][..0] == [];
    }
    assert RegistrationRows(empData, [Finra, Sec]) == [r0, r1] by {
      assert [Finra, Sec][..1] == [Finra];
    }
    assert EmploymentRows(base, [Acme]) == [r0, r1] by {
      assert [Acme][..0] == [];
    }
    assert ExamRows(base, [S7]) == [r2] by {
      assert [S7][..0] == [];
    }
    assert IndividualRows(Doe) == Some([r0, r1] + [r2]);
    assert [] + ([r0, r1] + [r2]) == [r0, r1, r2];
    assert IndividualsRows([Doe]) == Some([r0, r1, r2]) by {
      assert [Doe][..0] == [];
    }
  }

  /** Cell by cell: absent attributes read as "", and the exam row has no
      employer column. */
  lemma ReportRows()
    ensures var rows := DocumentRows(Parsed(Report));
      |rows| == 3 &&
      "regAuth" in rows[0] && rows[0]["regAuth"] == "FINRA" &&
      "regAuth" in rows[1] && rows[1]["regAuth"] == "SEC" &&
      "exmCd" in rows[2] && rows[2]["exmCd"] == "S7" &&
      "indvlPK" in rows[0] && rows[0]["indvlPK"] == "100" &&
      "lastNm" in rows[2] && rows[2]["lastNm"] == "Doe" &&
      "firstNm" in rows[0] && rows[0]["firstNm"] == "" &&
      "orgNm" in rows[1] && rows[1]["orgNm"] == "Acme" &&
      "city" in rows[1] && rows[1]["city"] == "" &&
      "orgNm" !in rows[2]
  {
    ReportRowsShape();
    RecordSpec(InfoDoe.attrib, IndividualKeys);
    RecordSpec(Acme.attrib, EmployerKeys);
    RecordSpec(Finra.attrib, RegistrationKeys);
    RecordSpec(Sec.attrib, RegistrationKeys);
    RecordSpec(S7.attrib, ExamKeys);
    ColumnsDisjoint();
  }

  /** What parsing yields in a folder holding the report as "a.xml" and a
      malformed "b.xml" (and any other file). */
  function SampleFolder(name: string): Document
  {
    if name == "a.xml" then Parsed(Report) else ParseError
  }

  /** The folder's listing, a report, a text file and a file that does not
      parse, yields exactly the report's rows. */
  lemma ReportFolder()
    ensures FolderRows(["a.xml", "notes.txt", "b.xml"], SampleFolder) == DocumentRows(Parsed(Report))
  {
    var rows := DocumentRows(Parsed(Report));
    assert FolderRows(["a.xml"], SampleFolder) == rows by {
      assert IsXmlName("a.xml");
      FolderRowsSingle("a.xml", SampleFolder);
    }
    assert FolderRows(["a.xml", "notes.txt"], SampleFolder) == rows by {
      assert !IsXmlName("notes.txt");
      FolderRowsSingle("notes.txt", SampleFolder);
      FolderRowsAppend(["a.xml"], ["notes.txt"], SampleFolder);
    }
    assert SampleFolder("b.xml") == ParseError;
    FolderRowsSingle("b.xml", SampleFolder);
    FolderRowsAppend(["a.xml", "notes.txt"], ["b.xml"], SampleFolder);
  }
}
