/** What the flattener promises about the rows it emits: how many there are,
    which columns they carry, where their values come from, in what order
    they appear, and that a failure anywhere discards the whole document. */
module FlattenerProperties {
  import opened ElementTree
  import opened Flattener

  /** Columns of a row that joins an individual with a registration. */
  const RegistrationRowKeys: set<string> := IndividualKeys + EmployerKeys + RegistrationKeys
  /** Columns of a row that joins an individual with an exam. */
  const ExamRowKeys: set<string> := IndividualKeys + ExamKeys

  /** Total number of rows the individuals `ds` produce when none raises. */
  function RowCount(ds: seq<Element>): nat
  {
    if ds == [] then 0 else RegistrationCount(Employers(ds[0])) + |Exams(ds[0])| + RowCount(ds[1..])
  }

  /** `r` carries the seven individual columns of `info`, each with the
      attribute's value or "" when the attribute is absent. */
  ghost predicate CarriesIndividual(r: Row, info: Element)
  {
    forall k :: k in IndividualKeys ==> k in r && r[k] == Get(info.attrib, k)
  }

  /** The four column groups are pairwise disjoint, so no `update` of the
      source ever overwrites a column set at an outer level. */
  lemma ColumnsDisjoint()
    ensures IndividualKeys !! EmployerKeys && IndividualKeys !! RegistrationKeys && IndividualKeys !! ExamKeys
    ensures EmployerKeys !! RegistrationKeys && EmployerKeys !! ExamKeys && RegistrationKeys !! ExamKeys
  {
  }

  /** A record has exactly the listed columns, each the attribute's value
      or "". */
  lemma RecordSpec(attrib: map<string, string>, keys: set<string>)
    ensures Record(attrib, keys).Keys == keys
    ensures forall k :: k in keys ==> Record(attrib, keys)[k] == Get(attrib, k)
  {
  }

  /** Extending a row by columns it lacks keeps its own values: dropping
      the new columns again gives the row back. */
  lemma ExtendThenDrop(m: Row, ext: Row)
    requires m.Keys !! ext.Keys
    ensures (m + ext).Keys == m.Keys + ext.Keys
    ensures (m + ext) - ext.Keys == m
  {
  }

  /** `r` is a registration row of the individual whose columns are `base`:
      it has exactly the individual, employer and registration columns (no
      exam column), and the individual's columns are those of `base`. */
  ghost predicate RegistrationRowOf(r: Row, base: Row)
  {
    r.Keys == RegistrationRowKeys && r.Keys !! ExamKeys && r - (EmployerKeys + RegistrationKeys) == base
  }

  /** `r` is an exam row of the individual whose columns are `base`: it has
      exactly the individual and exam columns (no employer or registration
      column), and the individual's columns are those of `base`. */
  ghost predicate ExamRowOf(r: Row, base: Row)
  {
    r.Keys == ExamRowKeys && r.Keys !! (EmployerKeys + RegistrationKeys) && r - ExamKeys == base
  }

  lemma ConcatAt<T>(a: seq<T>, b: seq<T>, i: nat)
    requires i < |a| + |b|
    ensures (a + b)[i] == if i < |a| then a[i] else b[i - |a|]
  {
  }

  lemma MergeAssoc(a: Row, b: Row, c: Row)
    ensures a + b + c == a + (b + c)
  {
  }

  /** `r` is the exam row that joins the individual whose columns are
      `base` with the exam `exm`: `base`'s columns, then the exam's three
      columns with the exam's attribute values ("" where absent). */
  ghost predicate ExamRowFrom(r: Row, base: Row, exm: Element)
  {
    ExamRowOf(r, base) && forall k :: k in ExamKeys ==> k in r && r[k] == Get(exm.attrib, k)
  }

  // ---------------------------------------------------------------------
  // One employer's registrations, one individual's exams

  /** One row per registration, the k-th built from the k-th registration. */
  lemma {:induction false} RegistrationRowsAt(empData: Row, regs: seq<Element>)
    ensures |RegistrationRows(empData, regs)| == |regs|
    ensures forall k :: 0 <= k < |regs| ==> RegistrationRows(empData, regs)[k] == empData + RegistrationRecord(regs[k])
    decreases |regs|
  {
    if regs != [] {
      RegistrationRowsAt(empData, regs[..|regs| - 1]);
    }
  }

  /** One row per exam, the x-th built from the x-th exam. */
  lemma {:induction false} ExamRowsAt(base: Row, exms: seq<Element>)
    ensures |ExamRows(base, exms)| == |exms|
    ensures forall x :: 0 <= x < |exms| ==> ExamRows(base, exms)[x] == base + ExamRecord(exms[x])
    decreases |exms|
  {
    if exms != [] {
      ExamRowsAt(base, exms[..|exms| - 1]);
    }
  }

  /** Registrations under one employer share every non-registration column
      (the individual's and the employer's values, copied from `empData`)
      and differ only in the registration columns, which come from their own
      registration, "" where it lacks the attribute. */
  lemma SiblingRegistrations(info: Element, emp: Element, k1: nat, k2: nat)
    requires k1 < |Registrations(emp)| && k2 < |Registrations(emp)|
    ensures var empData := IndividualRecord(info) + EmployerRecord(emp);
      var rows := RegistrationRows(empData, Registrations(emp));
      rows[k1] - RegistrationKeys == rows[k2] - RegistrationKeys == empData &&
      forall key :: key in RegistrationKeys ==> key in rows[k1] && rows[k1][key] == Get(Registrations(emp)[k1].attrib, key)
  {
    var empData := IndividualRecord(info) + EmployerRecord(emp);
    var regs := Registrations(emp);
    RegistrationRowsAt(empData, regs);
    ColumnsDisjoint();
    RecordSpec(info.attrib, IndividualKeys);
    RecordSpec(emp.attrib, EmployerKeys);
    RecordSpec(regs[k1].attrib, RegistrationKeys);
    RecordSpec(regs[k2].attrib, RegistrationKeys);
    ExtendThenDrop(IndividualRecord(info), EmployerRecord(emp));
    ExtendThenDrop(empData, RegistrationRecord(regs[k1]));
    ExtendThenDrop(empData, RegistrationRecord(regs[k2]));
  }

  // ---------------------------------------------------------------------
  // All employers of one individual

  /** Flattening the employers `a + b` emits `a`'s rows, then `b`'s. */
  lemma {:induction false} EmploymentRowsAppend(base: Row, a: seq<Element>, b: seq<Element>)
    ensures EmploymentRows(base, a + b) == EmploymentRows(base, a) + EmploymentRows(base, b)
    decreases |b|
  {
    if b == [] {
      assert a + b == a;
    } else {
      var init := b[..|b| - 1];
      var last := b[|b| - 1];
      assert (a + b)[..|a + b| - 1] == a + init;
      assert (a + b)[|a + b| - 1] == last;
      EmploymentRowsAppend(base, a, init);
      var tail := RegistrationRows(base + EmployerRecord(last), Registrations(last));
      assert EmploymentRows(base, a + b) == EmploymentRows(base, a + init) + tail;
      assert EmploymentRows(base, b) == EmploymentRows(base, init) + tail;
      AppendAssoc(EmploymentRows(base, a), EmploymentRows(base, init), tail);
    }
  }

  /** An employer without registrations contributes no row. */
  lemma EmployerWithoutRegistrations(base: Row, a: seq<Element>, e: Element, b: seq<Element>)
    requires Registrations(e) == []
    ensures EmploymentRows(base, a + [e] + b) == EmploymentRows(base, a + b)
  {
    var ae := a + [e];
    assert EmploymentRows(base, ae) == EmploymentRows(base, a) by {
      assert ae[..|ae| - 1] == a;
      assert EmploymentRows(base, ae) == EmploymentRows(base, a) + [];
    }
    EmploymentRowsAppend(base, ae, b);
    EmploymentRowsAppend(base, a, b);
  }

  /** Every registration row of `emps` joins `base` with one of the
      employers and one of that employer's registrations. */
  lemma {:induction false} EmploymentRowsOrigin(base: Row, emps: seq<Element>, r: Row)
    requires r in EmploymentRows(base, emps)
    ensures exists e, g ::
      e in emps && g in Registrations(e) && r == base + EmployerRecord(e) + RegistrationRecord(g)
    decreases |emps|
  {
    var init := emps[..|emps| - 1];
    var last := emps[|emps| - 1];
    var empData := base + EmployerRecord(last);
    var lastRows := RegistrationRows(empData, Registrations(last));
    if r in lastRows {
      RegistrationRowsAt(empData, Registrations(last));
      var k :| 0 <= k < |lastRows| && lastRows[k] == r;
      assert Registrations(last)[k] in Registrations(last);
      assert last in emps;
    } else {
      EmploymentRowsOrigin(base, init, r);
      var e, g :| e in init && g in Registrations(e) && r == base + EmployerRecord(e) + RegistrationRecord(g);
      assert e in emps;
    }
  }

  /** Every registration of every employer of `emps` yields its row. */
  lemma {:induction false} EmploymentRowsComplete(base: Row, emps: seq<Element>, e: Element, g: Element)
    requires e in emps && g in Registrations(e)
    ensures base + EmployerRecord(e) + RegistrationRecord(g) in EmploymentRows(base, emps)
    decreases |emps|
  {
    var init := emps[..|emps| - 1];
    var last := emps[|emps| - 1];
    var empData := base + EmployerRecord(last);
    if e == last {
      RegistrationRowsAt(empData, Registrations(last));
      var k :| 0 <= k < |Registrations(last)| && Registrations(last)[k] == g;
      assert RegistrationRows(empData, Registrations(last))[k] == empData + RegistrationRecord(g);
    } else {
      assert e in init;
      EmploymentRowsComplete(base, init, e, g);
    }
  }

  /** A row is emitted for an employer and a registration exactly when the
      registration belongs to that employer and the employer to `emps`; the
      row is `base` extended by both. */
  lemma EmploymentRowsJoin(base: Row, emps: seq<Element>, r: Row)
    ensures r in EmploymentRows(base, emps) <==>
      exists e, g :: e in emps && g in Registrations(e) &&
        r == base + EmployerRecord(e) + RegistrationRecord(g)
  {
    if r in EmploymentRows(base, emps) {
      EmploymentRowsOrigin(base, emps, r);
    }
    if exists e, g :: e in emps && g in Registrations(e) && r == base + EmployerRecord(e) + RegistrationRecord(g) {
      var e, g :| e in emps && g in Registrations(e) && r == base + EmployerRecord(e) + RegistrationRecord(g);
      EmploymentRowsComplete(base, emps, e, g);
    }
  }

  /** A row is emitted for an exam exactly when the exam is one of `exms`;
      the row is `base` extended by the exam's columns. */
  lemma ExamRowsJoin(base: Row, exms: seq<Element>, r: Row)
    ensures r in ExamRows(base, exms) <==> exists x :: x in exms && r == base + ExamRecord(x)
  {
    ExamRowsAt(base, exms);
    var rows := ExamRows(base, exms);
    if r in rows {
      var i :| 0 <= i < |rows| && rows[i] == r;
      assert exms[i] in exms;
    }
    if exists x :: x in exms && r == base + ExamRecord(x) {
      var x :| x in exms && r == base + ExamRecord(x);
      var i :| 0 <= i < |exms| && exms[i] == x;
      assert rows[i] == r;
    }
  }

  // ---------------------------------------------------------------------
  // One individual

  /** Every registration row built from `base` is a registration row of
      that individual. */
  lemma EmploymentRowsColumns(base: Row, emps: seq<Element>)
    requires base.Keys == IndividualKeys
    ensures forall r :: r in EmploymentRows(base, emps) ==> RegistrationRowOf(r, base)
  {
    forall r | r in EmploymentRows(base, emps) ensures RegistrationRowOf(r, base) {
      EmploymentRowsOrigin(base, emps, r);
      var e, g :| e in emps && g in Registrations(e) && r == base + EmployerRecord(e) + RegistrationRecord(g);
      RecordSpec(e.attrib, EmployerKeys);
      RecordSpec(g.attrib, RegistrationKeys);
      ColumnsDisjoint();
      var ext := EmployerRecord(e) + RegistrationRecord(g);
      MergeAssoc(base, EmployerRecord(e), RegistrationRecord(g));
      ExtendThenDrop(base, ext);
    }
  }

  /** Every exam row built from `base` is an exam row of that individual. */
  lemma ExamRowsColumns(base: Row, exms: seq<Element>)
    requires base.Keys == IndividualKeys
    ensures forall x :: 0 <= x < |exms| ==> ExamRowOf(ExamRows(base, exms)[x], base)
  {
    ExamRowsAt(base, exms);
    ColumnsDisjoint();
    forall x | 0 <= x < |exms| ensures ExamRowOf(ExamRows(base, exms)[x], base) {
      RecordSpec(exms[x].attrib, ExamKeys);
      ExtendThenDrop(base, ExamRecord(exms[x]));
    }
  }

  /** Whatever rows precede them, the exam rows keep their order and
      shape: the row at `i` is built from the exam at `i - |before|`. */
  lemma ExamRowAfter(base: Row, before: seq<Row>, exms: seq<Element>, i: nat)
    requires base.Keys == IndividualKeys
    requires |before| <= i < |before| + |exms|
    ensures i < |before + ExamRows(base, exms)|
    ensures ExamRowFrom((before + ExamRows(base, exms))[i], base, exms[i - |before|])
  {
    ConcatAt(before, ExamRows(base, exms), i);
    ExamRowsAt(base, exms);
    ExamRowsColumns(base, exms);
    RecordSpec(exms[i - |before|].attrib, ExamKeys);
  }

  /** Rows put before the exam rows stay where they are. */
  lemma RowBeforeExams(base: Row, regRows: seq<Row>, exms: seq<Element>, i: nat)
    requires forall r :: r in regRows ==> RegistrationRowOf(r, base)
    requires i < |regRows|
    ensures RegistrationRowOf((regRows + ExamRows(base, exms))[i], base)
  {
    ConcatAt(regRows, ExamRows(base, exms), i);
    assert regRows[i] in regRows;
  }

  /** An individual with `Info` yields one row per registration of its
      employers and one per exam, and no other row. */
  lemma IndividualRowsCount(indvl: Element)
    requires Info(indvl).Some?
    ensures IndividualRows(indvl).Some?
    ensures |IndividualRows(indvl).value| == RegistrationCount(Employers(indvl)) + |Exams(indvl)|
  {
    var base := IndividualRecord(Info(indvl).value);
    assert IndividualRows(indvl) == Some(EmploymentRows(base, Employers(indvl)) + ExamRows(base, Exams(indvl)));
  }

  /** The first rows of an individual are its registration rows: exactly the
      individual, employer and registration columns, the individual's columns
      copied unchanged from `Info`. */
  lemma IndividualRegistrationRows(indvl: Element)
    requires Info(indvl).Some?
    ensures IndividualRows(indvl).Some?
    ensures |IndividualRows(indvl).value| == RegistrationCount(Employers(indvl)) + |Exams(indvl)|
    ensures forall i :: 0 <= i < RegistrationCount(Employers(indvl)) ==>
      RegistrationRowOf(IndividualRows(indvl).value[i], IndividualRecord(Info(indvl).value))
  {
    IndividualRowsCount(indvl);
    var base := IndividualRecord(Info(indvl).value);
    var regRows := EmploymentRows(base, Employers(indvl));
    var exms := Exams(indvl);
    assert IndividualRows(indvl) == Some(regRows + ExamRows(base, exms));
    RecordSpec(Info(indvl).value.attrib, IndividualKeys);
    EmploymentRowsColumns(base, Employers(indvl));
    forall i | 0 <= i < |regRows| ensures RegistrationRowOf((regRows + ExamRows(base, exms))[i], base) {
      RowBeforeExams(base, regRows, exms, i);
    }
  }

  /** After its registration rows, an individual has one exam row per exam,
      in exam order: the individual's columns copied unchanged from `Info`
      and the exam's columns, and no employer or registration column. */
  lemma IndividualExamRow(indvl: Element, i: nat)
    requires Info(indvl).Some?
    requires RegistrationCount(Employers(indvl)) <= i < RegistrationCount(Employers(indvl)) + |Exams(indvl)|
    ensures IndividualRows(indvl).Some? && i < |IndividualRows(indvl).value|
    ensures ExamRowFrom(IndividualRows(indvl).value[i], IndividualRecord(Info(indvl).value),
      Exams(indvl)[i - RegistrationCount(Employers(indvl))])
  {
    var info := Info(indvl).value;
    var base := IndividualRecord(info);
    var regRows := EmploymentRows(base, Employers(indvl));
    var exms := Exams(indvl);
    var rows := regRows + ExamRows(base, exms);
    assert IndividualRows(indvl).value == rows;
    assert i < |rows| && ExamRowFrom(rows[i], base, exms[i - |regRows|]) by {
      RecordSpec(info.attrib, IndividualKeys);
      ExamRowAfter(base, regRows, exms, i);
    }
  }

  /** Every row of an individual is a registration row or an exam row of
      that individual. */
  lemma IndividualRowKinds(indvl: Element)
    requires Info(indvl).Some?
    ensures IndividualRows(indvl).Some?
    ensures forall r :: r in IndividualRows(indvl).value ==>
      RegistrationRowOf(r, IndividualRecord(Info(indvl).value)) || ExamRowOf(r, IndividualRecord(Info(indvl).value))
  {
    IndividualRegistrationRows(indvl);
    var rows := IndividualRows(indvl).value;
    var n := RegistrationCount(Employers(indvl));
    forall r | r in rows
      ensures RegistrationRowOf(r, IndividualRecord(Info(indvl).value)) || ExamRowOf(r, IndividualRecord(Info(indvl).value))
    {
      var i :| 0 <= i < |rows| && rows[i] == r;
      if n <= i {
        IndividualExamRow(indvl, i);
      }
    }
  }

  /** Every row of an individual carries its seven `Info` columns, each
      equal to the attribute or "" when the attribute is absent. */
  lemma IndividualRowsCarryInfo(indvl: Element)
    requires Info(indvl).Some?
    ensures IndividualRows(indvl).Some?
    ensures forall r :: r in IndividualRows(indvl).value ==> CarriesIndividual(r, Info(indvl).value)
  {
    IndividualRowKinds(indvl);
    var base := IndividualRecord(Info(indvl).value);
    RecordSpec(Info(indvl).value.attrib, IndividualKeys);
    ColumnsDisjoint();
    forall r | r in IndividualRows(indvl).value ensures CarriesIndividual(r, Info(indvl).value) {
      if RegistrationRowOf(r, base) {
        assert forall k :: k in IndividualKeys ==> k in r - (EmployerKeys + RegistrationKeys);
      } else {
        assert forall k :: k in IndividualKeys ==> k in r - ExamKeys;
      }
    }
  }

  /** An individual yields no row exactly when none of its employers holds a
      registration and it has no exam; there is no row for the individual
      alone. */
  lemma NoOrphanRow(indvl: Element)
    requires Info(indvl).Some?
    ensures IndividualRows(indvl) == Some([]) <==>
      RegistrationCount(Employers(indvl)) == 0 && Exams(indvl) == []
  {
    IndividualRowsCount(indvl);
    if RegistrationCount(Employers(indvl)) == 0 && Exams(indvl) == [] {
      assert |IndividualRows(indvl).value| == 0;
    }
  }

  // ---------------------------------------------------------------------
  // A whole document

  /** Flattening the individuals `a + b` emits `a`'s rows, then `b`'s; it
      fails when either part fails. */
  lemma {:induction false} IndividualsRowsAppend(a: seq<Element>, b: seq<Element>)
    ensures IndividualsRows(a + b) ==
      if IndividualsRows(a).Some? && IndividualsRows(b).Some?
      then Some(IndividualsRows(a).value + IndividualsRows(b).value)
      else None
    decreases |b|
  {
    if b == [] {
      assert a + b == a;
      if IndividualsRows(a).Some? {
        assert IndividualsRows(a).value + [] == IndividualsRows(a).value;
      }
    } else {
      var init := b[..|b| - 1];
      assert (a + b)[..|a + b| - 1] == a + init;
      assert (a + b)[|a + b| - 1] == b[|b| - 1];
      IndividualsRowsAppend(a, init);
      if IndividualsRows(a).Some? && IndividualsRows(init).Some? && IndividualRows(b[|b| - 1]).Some? {
        AppendAssoc(IndividualsRows(a).value, IndividualsRows(init).value, IndividualRows(b[|b| - 1]).value);
      }
    }
  }

  /** An individual flattens without raising exactly when it has `Info`. */
  lemma IndividualRowsSucceed(d: Element)
    ensures IndividualRows(d).Some? <==> Info(d).Some?
  {
  }

  /** The individuals flatten without raising exactly when every one of them
      has an `Info` child. */
  lemma {:induction false} IndividualsRowsSucceed(ds: seq<Element>)
    ensures IndividualsRows(ds).Some? <==> forall i :: 0 <= i < |ds| ==> Info(ds[i]).Some?
  {
    IndividualsRowsSucceedAll(ds);
    AllHaveInfoSpec(ds);
  }

  /** Every individual of `ds` has `Info`, stated the way IndividualsRows
      recurses. */
  ghost predicate AllHaveInfo(ds: seq<Element>)
  {
    ds == [] || (AllHaveInfo(ds[..|ds| - 1]) && Info(ds[|ds| - 1]).Some?)
  }

  lemma {:induction false} IndividualsRowsSucceedAll(ds: seq<Element>)
    ensures IndividualsRows(ds).Some? <==> AllHaveInfo(ds)
    decreases |ds|
  {
    if ds != [] {
      IndividualsRowsSucceedAll(ds[..|ds| - 1]);
      IndividualRowsSucceed(ds[|ds| - 1]);
    }
  }

  lemma {:induction false} AllHaveInfoSpec(ds: seq<Element>)
    ensures AllHaveInfo(ds) <==> forall i :: 0 <= i < |ds| ==> Info(ds[i]).Some?
    decreases |ds|
  {
    if ds != [] {
      var init := ds[..|ds| - 1];
      AllHaveInfoSpec(init);
      if forall i :: 0 <= i < |ds| ==> Info(ds[i]).Some? {
        forall i | 0 <= i < |init| ensures Info(init[i]).Some? {
          assert init[i] == ds[i];
        }
      } else {
        var i :| 0 <= i < |ds| && Info(ds[i]).None?;
        if i < |init| {
          assert init[i] == ds[i];
        }
      }
    }
  }

  /** When no individual raises, the document has one row per registration
      and per exam of each individual. */
  lemma {:induction false} IndividualsRowsCount(ds: seq<Element>)
    requires IndividualsRows(ds).Some?
    ensures |IndividualsRows(ds).value| == RowCount(ds)
    decreases |ds|
  {
    if ds != [] {
      assert [ds[0]] + ds[1..] == ds;
      IndividualsRowsAppend([ds[0]], ds[1..]);
      assert [ds[0]][..0] == [];
      IndividualRowsCount(ds[0]);
      IndividualsRowsCount(ds[1..]);
    }
  }

  /** One individual without `Info` anywhere in the document, and the
      document yields no row at all. */
  lemma MissingInfoDiscardsDocument(root: Element, i: nat)
    requires i < |Individuals(root)|
    requires Info(Individuals(root)[i]).None?
    ensures DocumentRows(Parsed(root)) == []
  {
    IndividualsRowsSucceed(Individuals(root));
  }

  /** Every row of a document belongs to one of its individuals: it carries
      that individual's `Info` columns, and it is a registration row or an
      exam row. */
  lemma {:induction false} IndividualsRowsOrigin(ds: seq<Element>, r: Row)
    requires IndividualsRows(ds).Some?
    requires r in IndividualsRows(ds).value
    ensures exists d :: d in ds && Info(d).Some? && CarriesIndividual(r, Info(d).value)
    ensures r.Keys == RegistrationRowKeys || r.Keys == ExamRowKeys
    decreases |ds|
  {
    var init := ds[..|ds| - 1];
    var last := ds[|ds| - 1];
    var done := IndividualsRows(init).value;
    if r in done {
      IndividualsRowsOrigin(init, r);
      var d :| d in init && Info(d).Some? && CarriesIndividual(r, Info(d).value);
      assert d in ds;
    } else {
      IndividualRowsCarryInfo(last);
      IndividualRowKinds(last);
      assert last in ds;
    }
  }

  /** The document-level form: every emitted row carries the seven
      individual columns of an individual of the document. */
  lemma DocumentRowsOrigin(root: Element, r: Row)
    requires r in DocumentRows(Parsed(root))
    ensures exists d :: d in Individuals(root) && Info(d).Some? && CarriesIndividual(r, Info(d).value)
    ensures IndividualKeys <= r.Keys
  {
    IndividualsRowsOrigin(Individuals(root), r);
  }

  /** The document-level count: with every individual complete, the document
      has one row per registration and per exam. */
  lemma DocumentRowsCount(root: Element)
    requires forall i :: 0 <= i < |Individuals(root)| ==> Info(Individuals(root)[i]).Some?
    ensures |DocumentRows(Parsed(root))| == RowCount(Individuals(root))
  {
    IndividualsRowsSucceed(Individuals(root));
    IndividualsRowsCount(Individuals(root));
  }
}
