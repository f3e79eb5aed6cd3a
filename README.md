# Flattening the adviser-representative XML feed

This project models the core of `main.py`, a script that turns the SEC's
Investment Adviser Representative XML feed into one flat table. The model
covers two parts.

- `parse_xml_to_dataframe` walks a parsed document. For every individual
  (`Indvl`) it reads seven attributes from the individual's `Info` child into
  a base record. It copies that record once for each current employer
  (`CrntEmps/CrntEmp`) and adds four employer columns. It copies the employer
  record once for each current registration (`CrntRgstns/CrntRgstn`) and adds
  four registration columns, and each such copy is one row. Separately, it
  copies the base record once for each exam (`Exms/Exm`) and adds three exam
  columns, giving one row per exam. A missing attribute reads as `""`. If
  anything raises, the whole document yields no rows.
- The loop of `process_folder_to_csv` flattens every file of a directory
  listing whose name ends in `.xml` and concatenates the tables in listing
  order.

The project has five modules.

- `ElementTree` (`element_tree.dfy`) models the small part of Python's
  `xml.etree.ElementTree` that the script uses:
  - an element has a tag, an attribute dictionary and its children;
  - `attrib.get(k, "")`;
  - `find("Info")` returns the first direct child with that tag;
  - `findall(".//T")` returns the elements strictly below, in document order;
  - `findall(".//A/B")` returns the `B` children of every `A` strictly below,
    in document order.

  Lemmas state what each query finds in terms of plain tree membership
  (`Below`).
- `Flattener` (`flattener.dfy`) holds the two kinds of row:
  - the specification functions (`RegistrationRows`, `EmploymentRows`,
    `ExamRows`, `IndividualRows`, `IndividualsRows`, `DocumentRows`);
  - the method `ParseXmlToRows`, which keeps the source's three nested loops
    that append to `data`. It is proved equal to `DocumentRows`.

  A row is a `map<string, string>`. Python's `dict.copy()` followed by
  `update` is Dafny's map union `base + extra`, where the right operand
  wins. A failed flattening is `None`.
- `FlattenerProperties` (`flattener_properties.dfy`) holds what the rows
  satisfy: counts, columns, where the values come from, order, and
  all-or-nothing failure.
- `Aggregator` (`aggregator.dfy`) holds the folder loop as the method
  `ProcessFolderToRows`, its specification `FolderRows`, and lemmas about
  filtering and concatenation.
- `Scenarios` (`scenarios.dfy`) works through a small document: one
  individual, Doe (key 100), employed by Acme, with two registrations (FINRA,
  SEC) and one exam (S7). The document yields exactly three rows. A folder holding this document, a text
  file and a file that does not parse yields the same three rows.

The directory listing (`names: seq<string>`) and the outcome of parsing each
file (`read: string -> Document`, a parsed tree or `ParseError`) are inputs
of the model.

Three things the code does that are easy to miss:

- Employers are found with `.//CrntEmps/CrntEmp`, so a `CrntEmp` counts only
  when its parent is a `CrntEmps` element below the individual. The same
  holds for `.//CrntRgstns/CrntRgstn` and `.//Exms/Exm`.
- An exam row does not hold the employer and registration columns at all
  (`"orgNm" !in row`). `pd.DataFrame(data)` (main.py:92) takes the union of
  the columns and fills those cells of an exam row with NaN; `pd.concat`
  (main.py:105) takes the union again across files; only `to_csv`
  (main.py:109) writes the NaN cells as empty. All three are outside this
  model.
- Besides a parse failure, an individual without an `Info` child also
  empties the document. `find` then returns `None` and `.attrib` raises
  inside the `try`.

## Model

| member | source | states |
|---|---|---|
| ElementTree.FindChildSpec | main.py:45 | `find("Info")` returns None exactly when no child is tagged `Info`; otherwise it returns a child with that tag that no earlier child shares |
| ElementTree.FirstIndexSpec | main.py:45 | the index found holds the tag and every earlier element lacks it; there is no index exactly when no element has the tag |
| ElementTree.DescendantsSpec | main.py:43 | `.//Indvl` finds exactly the elements strictly below the root that are tagged `Indvl` |
| ElementTree.DescendantsInSpec | main.py:43 | the forest search finds exactly the tagged elements that are roots of the forest or below one |
| ElementTree.TaggedSpec | main.py:55 | selecting children by tag keeps exactly the children with that tag and never adds any |
| ElementTree.ChildrenOfAllSpec | main.py:55 | the `B` children of a list of parents are exactly the `B`-tagged children of some parent in the list |
| ElementTree.ChildPathSpec | main.py:55 | `.//A/B` finds exactly the `B`-tagged elements whose parent is an `A`-tagged element strictly below (the queries of lines 55, 67 and 80) |
| Flattener.RegistrationRows | main.py:67-77 | one employer emits exactly one row per registration found under it |
| Flattener.EmploymentRows | main.py:55-77 | the registration rows of an individual number the total registration count of its employers |
| Flattener.ExamRows | main.py:80-89 | an individual emits exactly one exam row per exam |
| Flattener.IndividualsRowsFails | main.py:93-95 | once one individual raises, the whole sequence of individuals raises, whatever follows |
| Flattener.ParseXmlToRows | main.py:34-95 | the three nested loops that append to `data` return exactly `DocumentRows(doc)`, and `[]` when parsing fails or an individual lacks `Info` |
| FlattenerProperties.ColumnsDisjoint | main.py:44-86 | the individual, employer, registration and exam column names are pairwise disjoint, so no `update` overwrites a column set earlier |
| FlattenerProperties.RecordSpec | main.py:44-52 | (supporting lemma for IndividualRowsCarryInfo) a record has exactly the listed columns, each holding the attribute's value, or `""` when the attribute is absent |
| FlattenerProperties.ExtendThenDrop | main.py:56-57 | (supporting lemma for SiblingRegistrations, EmploymentRowsColumns and ExamRowsColumns) extending a copy by new columns keeps all of the copied values |
| FlattenerProperties.RegistrationRowsAt | main.py:67-77 | the k-th row of an employer is the employer record extended by the k-th registration |
| FlattenerProperties.ExamRowsAt | main.py:80-89 | the x-th exam row is the base record extended by the x-th exam |
| FlattenerProperties.SiblingRegistrations | main.py:67-74 | rows of registrations under one employer agree on every column except the registration columns, which are equal to the employer record; each registration column holds that registration's value or `""` |
| FlattenerProperties.EmploymentRowsAppend | main.py:55-77 | the rows of employers `a + b` are the rows of `a` followed by the rows of `b`, in employer order |
| FlattenerProperties.EmployerWithoutRegistrations | main.py:55-77 | an employer without registrations contributes no row |
| FlattenerProperties.EmploymentRowsOrigin | main.py:55-77 | every registration row joins the base record with one listed employer and one of that employer's registrations |
| FlattenerProperties.EmploymentRowsComplete | main.py:55-77 | every registration of every listed employer yields its row |
| FlattenerProperties.EmploymentRowsJoin | main.py:55-77 | a row is a registration row exactly when it is base + employer + registration for one registration of a listed employer |
| FlattenerProperties.ExamRowsJoin | main.py:80-89 | a row is an exam row exactly when it is base + exam for one of the exams |
| FlattenerProperties.EmploymentRowsColumns | main.py:55-77 | every registration row has exactly the individual, employer and registration columns, no exam column, and the individual's columns unchanged |
| FlattenerProperties.ExamRowsColumns | main.py:80-89 | every exam row has exactly the individual and exam columns, no employer or registration column, and the individual's columns unchanged |
| FlattenerProperties.ExamRowAfter | main.py:80-89 | after the rows emitted before them, the exam rows follow in exam order, each built from its own exam |
| FlattenerProperties.RowBeforeExams | main.py:55-89 | (supporting lemma for IndividualRegistrationRows) appending the exam rows leaves the earlier registration rows in place |
| FlattenerProperties.IndividualRowsCount | main.py:43-89 | an individual with `Info` yields its registration count plus its exam count rows and no other rows |
| FlattenerProperties.IndividualRegistrationRows | main.py:55-77 | an individual's first rows, one per registration, are its registration rows |
| FlattenerProperties.IndividualExamRow | main.py:80-89 | after the registration rows, the individual's rows are its exam rows in exam order, each with the exam's values and the `Info` columns |
| FlattenerProperties.IndividualRowKinds | main.py:55-89 | every row of an individual is either a registration row or an exam row of that individual, never both kinds of columns |
| FlattenerProperties.IndividualRowsCarryInfo | main.py:44-52 | every row of an individual holds all seven `Info` columns, each the attribute's value or `""` |
| FlattenerProperties.NoOrphanRow | main.py:43-89 | an individual yields no row exactly when it has no registration and no exam; there is no row for an individual alone |
| FlattenerProperties.IndividualsRowsAppend | main.py:43 | the rows of individuals `a + b` are `a`'s rows followed by `b`'s (document order), and the result fails when either part fails |
| FlattenerProperties.IndividualRowsSucceed | main.py:45 | (supporting lemma for IndividualsRowsSucceed) one individual flattens without raising exactly when it has an `Info` child |
| FlattenerProperties.IndividualsRowsSucceed | main.py:43-52 | the individuals flatten without raising exactly when every one has an `Info` child |
| FlattenerProperties.IndividualsRowsSucceedAll | main.py:43-52 | (supporting lemma for IndividualsRowsSucceed) the individuals flatten without raising exactly when each has `Info`, stated along the loop's order |
| FlattenerProperties.AllHaveInfoSpec | main.py:43-52 | (supporting lemma for IndividualsRowsSucceed) the loop-order statement that every individual has `Info` agrees with the positional one |
| FlattenerProperties.IndividualsRowsCount | main.py:43-89 | without failure, the rows number the sum over individuals of their registration and exam counts |
| FlattenerProperties.MissingInfoDiscardsDocument | main.py:93-95 | one individual without `Info` anywhere in the document empties the whole result, including rows of earlier individuals |
| FlattenerProperties.IndividualsRowsOrigin | main.py:43-89 | every row carries the `Info` columns of one of the individuals and has registration-row or exam-row columns |
| FlattenerProperties.DocumentRowsOrigin | main.py:34-95 | every row of a document carries the seven `Info` columns of one of its individuals |
| FlattenerProperties.DocumentRowsCount | main.py:34-95 | a document whose individuals all have `Info` yields one row per registration and one per exam |
| Aggregator.XmlNames | main.py:101-102 | (helper for XmlNamesSpec) the `.xml` names of a listing are never more than the listing |
| Aggregator.ProcessFolderToRows | main.py:98-105 | the loop that reassigns `all_data` returns exactly `FolderRows(names, read)`, which concatenates the tables of the `.xml` files in listing order |
| Aggregator.IsXmlNameSpec | main.py:102 | a name passes `endswith(".xml")` exactly when it is some stem followed by `.xml` |
| Aggregator.FolderRowsAppend | main.py:101-105 | listing `a` then `b` gives `a`'s rows followed by `b`'s |
| Aggregator.FolderRowsCount | main.py:101-105 | the combined row count is the sum of the per-file row counts |
| Aggregator.XmlNamesSpec | main.py:102 | the filter keeps exactly the listed names that end in `.xml` |
| Aggregator.FolderRowsOnlyXml | main.py:102 | dropping the names that do not end in `.xml` leaves the combined table unchanged |
| Aggregator.FolderRowsSingle | main.py:102-104 | a single `.xml` file contributes its own table, and any other name contributes nothing |
| Aggregator.FileAddsNothing | main.py:102-105 | a skipped file, or one whose flattening failed, adds no rows; removing it from the listing changes nothing |
| Aggregator.FileBlock | main.py:104-105 | a file's table appears whole, between the rows of the files listed before it and the files listed after it |
| Scenarios.ReportIndividuals | main.py:43 | in the example document `.//Indvl` finds the one individual |
| Scenarios.DoeQueries | main.py:45-80 | in the example, `Info`, the employer `Acme` and the exam `S7` are found |
| Scenarios.AcmeRegistrations | main.py:67 | in the example, Acme's registrations are found in document order, FINRA before SEC |
| Scenarios.ReportRowsShape | main.py:43-89 | the example document yields exactly three rows: FINRA, SEC, then the exam |
| Scenarios.ReportRows | main.py:43-89 | cell by cell, the example holds FINRA/SEC/S7, key 100 and name Doe, `""` for absent attributes, and no employer column in the exam row |
| Scenarios.ReportFolder | main.py:98-105 | a folder with the example, a text file and an unparsable `.xml` file yields exactly the example's rows |

## Left out

- `download_and_extract_zip` (main.py:16-31): HTTP, zip extraction and file
  deletion are I/O with no logic of their own. A download that fails is only
  logged, and a run then goes on with whatever the directory holds.
- The XML text parser `ET.parse` (main.py:37): its outcome is an input of the
  model, either a parsed tree (`Parsed(root)`) or a failure (`ParseError`).
  This covers malformed XML, unreadable files, and a directory whose name
  ends in `.xml`.
- `os.listdir` and `os.path.join` (main.py:101, 103): the listing is an input
  sequence, and its order is whatever the operating system returns. An
  exception from `os.listdir` itself happens outside any `try` and is not
  modelled.
- pandas (main.py:92, 95, 99, 105, 109): a table is a sequence of rows.
  `DataFrame`, `concat(ignore_index=True)`, the union of columns,
  rendering an absent column as an empty cell, and the CSV write with its
  error logging are not part of this model. Column order (dictionary
  insertion order) is not modelled, because rows are maps.
- Exceptions other than a parse failure and a missing `Info` (for instance
  running out of memory): the model has no other way for the flattening to
  raise.
- Logging throughout, and the module-level pipeline (main.py:114-121).
