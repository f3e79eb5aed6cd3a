/** The record flattener of main.py (`parse_xml_to_dataframe`): every
    individual (`Indvl`) of a parsed document is joined with each of its
    current registrations (through the employer that holds it) and,
    separately, with each of its exams; every join is one flat row. */
module Flattener {
  import opened ElementTree

  /** One flat row: a dictionary from column name to cell text. */
  type Row = map<string, string>

  /** The outcome of `ET.parse(xml_path)`: the root of the parsed tree, or a
      failure (malformed XML, unreadable file). */
  datatype Document = Parsed(root: Element) | ParseError

  /** Columns taken from an individual's `Info` element. */
  const IndividualKeys: set<string> := {"indvlPK", "lastNm", "firstNm", "midNm", "sufNm", "actvAGReg", "link"}
  /** Columns taken from a `CrntEmp` element. */
  const EmployerKeys: set<string> := {"orgNm", "orgPK", "city", "state"}
  /** Columns taken from a `CrntRgstn` element. */
  const RegistrationKeys: set<string> := {"regAuth", "regCat", "st", "stDt"}
  /** Columns taken from an `Exm` element. */
  const ExamKeys: set<string> := {"exmCd", "exmNm", "exmDt"}

  /** The dictionary `{k: attrib.get(k, "") for k in keys}`: every listed
      column is present, absent attributes read as the empty string. */
  function Record(attrib: map<string, string>, keys: set<string>): (r: Row)
  {
    map k | k in keys :: Get(attrib, k)
  }

  function IndividualRecord(info: Element): Row { Record(info.attrib, IndividualKeys) }
  function EmployerRecord(emp: Element): Row { Record(emp.attrib, EmployerKeys) }
  function RegistrationRecord(reg: Element): Row { Record(reg.attrib, RegistrationKeys) }
  function ExamRecord(exm: Element): Row { Record(exm.attrib, ExamKeys) }

  /** `root.findall(".//Indvl")` */
  function Individuals(root: Element): seq<Element> { Descendants(root, "Indvl") }
  /** `indvl.find("Info")` */
  function Info(indvl: Element): Option<Element> { FindChild(indvl, "Info") }
  /** `indvl.findall(".//CrntEmps/CrntEmp")` */
  function Employers(indvl: Element): seq<Element> { ChildPath(indvl, "CrntEmps", "CrntEmp") }
  /** `crnt_emp.findall(".//CrntRgstns/CrntRgstn")` */
  function Registrations(emp: Element): seq<Element> { ChildPath(emp, "CrntRgstns", "CrntRgstn") }
  /** `indvl.findall(".//Exms/Exm")` */
  function Exams(indvl: Element): seq<Element> { ChildPath(indvl, "Exms", "Exm") }

  /** The rows of one employer: a copy of `empData` extended by each
      registration in turn. */
  function RegistrationRows(empData: Row, regs: seq<Element>): (rows: seq<Row>)
    ensures |rows| == |regs|
  {
    if regs == [] then []
    else RegistrationRows(empData, regs[..|regs| - 1]) + [empData + RegistrationRecord(regs[|regs| - 1])]
  }

  /** The number of registrations held by the employers `emps`. */
  function RegistrationCount(emps: seq<Element>): nat
  {
    if emps == [] then 0
    else RegistrationCount(emps[..|emps| - 1]) + |Registrations(emps[|emps| - 1])|
  }

  /** The registration rows of one individual: employer after employer,
      each employer's rows built from a copy of `base` extended by the
      employer's own columns; one row per registration. */
  function EmploymentRows(base: Row, emps: seq<Element>): (rows: seq<Row>)
    ensures |rows| == RegistrationCount(emps)
  {
    if emps == [] then []
    else
      var emp := emps[|emps| - 1];
      EmploymentRows(base, emps[..|emps| - 1]) + RegistrationRows(base + EmployerRecord(emp), Registrations(emp))
  }

  /** The exam rows of one individual: a copy of `base` extended by each exam. */
  function ExamRows(base: Row, exms: seq<Element>): (rows: seq<Row>)
    ensures |rows| == |exms|
  {
    if exms == [] then []
    else ExamRows(base, exms[..|exms| - 1]) + [base + ExamRecord(exms[|exms| - 1])]
  }

  /** The rows of one individual, or None when it has no `Info` child (the
      source then takes `.attrib` of None and raises). */
  function IndividualRows(indvl: Element): Option<seq<Row>>
  {
    match Info(indvl)
    case None => None
    case Some(info) =>
      var base := IndividualRecord(info);
      Some(EmploymentRows(base, Employers(indvl)) + ExamRows(base, Exams(indvl)))
  }

  /** The rows of a sequence of individuals, or None as soon as one of them
      raises. */
  function IndividualsRows(indvls: seq<Element>): Option<seq<Row>>
  {
    if indvls == [] then Some([])
    else
      match IndividualsRows(indvls[..|indvls| - 1])
      case None => None
      case Some(done) =>
        match IndividualRows(indvls[|indvls| - 1])
        case None => None
        case Some(more) => Some(done + more)
  }

  /** The table `parse_xml_to_dataframe` returns for a document: its rows,
      or no rows at all when parsing or flattening raised. */
  function DocumentRows(doc: Document): seq<Row>
  {
    match doc
    case ParseError => []
    case Parsed(root) =>
      match IndividualsRows(Individuals(root))
      case None => []
      case Some(rows) => rows
  }

  /** Once a prefix of the individuals raised, the whole sequence does. */
  lemma {:induction false} IndividualsRowsFails(indvls: seq<Element>, i: nat)
    requires i <= |indvls|
    requires IndividualsRows(indvls[..i]).None?
    ensures IndividualsRows(indvls).None?
    decreases |indvls|
  {
    if i < |indvls| {
      var init := indvls[..|indvls| - 1];
      assert init[..i] == indvls[..i];
      IndividualsRowsFails(init, i);
    } else {
      assert indvls[..i] == indvls;
    }
  }

  lemma AppendAssoc<T>(a: seq<T>, b: seq<T>, c: seq<T>)
    ensures a + b + c == a + (b + c)
  {
  }

  lemma RegistrationRowsStep(empData: Row, regs: seq<Element>, k: nat)
    requires k < |regs|
    ensures RegistrationRows(empData, regs[..k + 1]) ==
      RegistrationRows(empData, regs[..k]) + [empData + RegistrationRecord(regs[k])]
  {
    assert regs[..k + 1][..k] == regs[..k];
  }

  lemma EmploymentRowsStep(base: Row, emps: seq<Element>, j: nat)
    requires j < |emps|
    ensures EmploymentRows(base, emps[..j + 1]) ==
      EmploymentRows(base, emps[..j]) + RegistrationRows(base + EmployerRecord(emps[j]), Registrations(emps[j]))
  {
    assert emps[..j + 1][..j] == emps[..j];
  }

  lemma ExamRowsStep(base: Row, exms: seq<Element>, x: nat)
    requires x < |exms|
    ensures ExamRows(base, exms[..x + 1]) == ExamRows(base, exms[..x]) + [base + ExamRecord(exms[x])]
  {
    assert exms[..x + 1][..x] == exms[..x];
  }

  lemma IndividualsRowsStep(indvls: seq<Element>, i: nat, more: seq<Row>)
    requires i < |indvls|
    requires IndividualsRows(indvls[..i]).Some?
    requires IndividualRows(indvls[i]) == Some(more)
    ensures IndividualsRows(indvls[..i + 1]) == Some(IndividualsRows(indvls[..i]).value + more)
  {
    assert indvls[..i + 1][..i] == indvls[..i];
  }

  /** `parse_xml_to_dataframe`: the three nested loops append to `data`; an
      individual without `Info` raises, and the handler discards all rows
      gathered so far. */
  method ParseXmlToRows(doc: Document) returns (rows: seq<Row>)
    ensures rows == DocumentRows(doc)
  {
    if doc.ParseError? {
      return [];
    }
    var indvls := Individuals(doc.root);
    var data: seq<Row> := [];
    var i := 0;
    while i < |indvls|
      invariant 0 <= i <= |indvls|
      invariant IndividualsRows(indvls[..i]) == Some(data)
    {
      var indvl := indvls[i];
      var info := Info(indvl);
      if info.None? {
        IndividualsRowsFails(indvls, i + 1);
        return [];
      }
      var indvlData := IndividualRecord(info.value);
      ghost var start := data;

      var emps := Employers(indvl);
      var j := 0;
      while j < |emps|
        invariant 0 <= j <= |emps|
        invariant data == start + EmploymentRows(indvlData, emps[..j])
      {
        var empData := indvlData + EmployerRecord(emps[j]);
        var regs := Registrations(emps[j]);
        ghost var before := data;
        var k := 0;
        while k < |regs|
          invariant 0 <= k <= |regs|
          invariant data == before + RegistrationRows(empData, regs[..k])
        {
          var regData := empData + RegistrationRecord(regs[k]);
          data := data + [regData];
          RegistrationRowsStep(empData, regs, k);
          AppendAssoc(before, RegistrationRows(empData, regs[..k]), [regData]);
          k := k + 1;
        }
        assert regs[..k] == regs;
        EmploymentRowsStep(indvlData, emps, j);
        AppendAssoc(start, EmploymentRows(indvlData, emps[..j]), RegistrationRows(empData, regs));
        j := j + 1;
      }
      assert emps[..j] == emps;
      ghost var regRows := EmploymentRows(indvlData, emps);
      assert data == start + regRows;

      ghost var examStart := data;
      var exms := Exams(indvl);
      var x := 0;
      while x < |exms|
        invariant 0 <= x <= |exms|
        invariant data == examStart + ExamRows(indvlData, exms[..x])
      {
        var examData := indvlData + ExamRecord(exms[x]);
        data := data + [examData];
        ExamRowsStep(indvlData, exms, x);
        AppendAssoc(examStart, ExamRows(indvlData, exms[..x]), [examData]);
        x := x + 1;
      }
      assert exms[..x] == exms;
      ghost var examRows := ExamRows(indvlData, exms);
      AppendAssoc(start, regRows, examRows);
      assert IndividualRows(indvl) == Some(regRows + examRows);
      IndividualsRowsStep(indvls, i, regRows + examRows);
      i := i + 1;
    }
    assert indvls[..i] == indvls;
    return data;
  }
}
