/** Importing sites and parties from CSV rows (core/platform/data_exchange/service.py,
    core/platform/importing/runtime.py): the dry run, the import itself, and how well the
    one predicts the other. */
module DataExchange {
  import opened Text

  type Fields = map<string, string>

  datatype SourceRow = SourceRow(line: int, values: Fields)

  /** What distinguishes sites from parties: the code and name columns, the optional text
      columns, and the accepted type tokens if the kind has a type column. */
  datatype Kind = Kind(codeField: string, nameField: string, textFields: set<string>, types: Option<set<string>>)

  /** `_text(row.values.get(key))` */
  function TextOf(row: SourceRow, key: string): string {
    if key in row.values then Strip(row.values[key]) else ""
  }

  datatype Parsed<T> = Absent | Value(value: T) | Invalid

  /** `_parse_optional_bool` */
  function ParseOptionalBool(text: string): Parsed<bool> {
    var t := Lower(text);
    if t == "" then Absent
    else if t in {"1", "true", "yes", "y", "on"} then Value(true)
    else if t in {"0", "false", "no", "n", "off"} then Value(false)
    else Invalid
  }

  /** `_parse_optional_party_type`, for kinds that have types. */
  function ParseOptionalType(kind: Kind, text: string): Parsed<string> {
    var t := Upper(text);
    if kind.types.None? || t == "" then Absent
    else if t in kind.types.value then Value(t)
    else Invalid
  }

  /** `_parse_site_payload` and `_parse_party_payload`. */
  function ParsePayload(kind: Kind, row: SourceRow): Option<Fields> {
    var active := ParseOptionalBool(TextOf(row, "is_active"));
    var ty := ParseOptionalType(kind, TextOf(row, "party_type"));
    if active.Invalid? || ty.Invalid? then None
    else
      var texts := map f | f in kind.textFields && TextOf(row, f) != "" :: TextOf(row, f);
      Some(map[kind.nameField := TextOf(row, kind.nameField)] + texts
           + (if ty.Value? then map["party_type" := ty.value] else map[])
           + (if active.Value? then map["is_active" := if active.value then "true" else "false"] else map[]))
  }

  /** The key under which the directory files a code (`normalize_code`). */
  function FiledCode(kind: Kind, row: SourceRow): string {
    Upper(Strip(TextOf(row, kind.codeField)))
  }

  /** The row gets past every check that does not write. `readable`: the directory may be
      read, otherwise every lookup raises. */
  predicate Acceptable(kind: Kind, readable: bool, row: SourceRow) {
    TextOf(row, kind.codeField) != "" && TextOf(row, kind.nameField) != "" && readable && ParsePayload(kind, row).Some?
  }

  // ----- the dry run ------------------------------------------------------------------------

  datatype Action = Skip | Create | Update

  datatype PreviewRow = PreviewRow(line: int, action: Action)

  datatype Preview = Preview(rows: seq<PreviewRow>, created: int, updated: int)

  function Plan(kind: Kind, readable: bool, directory: map<string, Fields>, row: SourceRow): Action {
    if !Acceptable(kind, readable, row) then Skip
    else if FiledCode(kind, row) in directory then Update
    else Create
  }

  function Planned(kind: Kind, readable: bool, directory: map<string, Fields>, rows: seq<SourceRow>): seq<PreviewRow> {
    seq(|rows|, k requires 0 <= k < |rows| => PreviewRow(rows[k].line, Plan(kind, readable, directory, rows[k])))
  }

  function Count(rows: seq<PreviewRow>, a: Action): nat {
    if rows == [] then 0 else Count(rows[..|rows| - 1], a) + if rows[|rows| - 1].action == a then 1 else 0
  }

  /** The checks of one preview row, in order. */
  method PlanRow(kind: Kind, readable: bool, directory: map<string, Fields>, row: SourceRow) returns (a: Action)
    ensures a == Plan(kind, readable, directory, row)
  {
    if TextOf(row, kind.codeField) == "" {
      return Skip;
    }
    if TextOf(row, kind.nameField) == "" {
      return Skip;
    }
    if !readable {
      return Skip;
    }
    var payload := ParsePayload(kind, row);
    if payload.None? {
      return Skip;
    }
    return if FiledCode(kind, row) in directory then Update else Create;
  }

  /** `_preview_sites` and `_preview_parties`. */
  method PreviewRows(kind: Kind, readable: bool, directory: map<string, Fields>, rows: seq<SourceRow>) returns (p: Preview)
    ensures p.rows == Planned(kind, readable, directory, rows)
    ensures p.created == Count(p.rows, Create) && p.updated == Count(p.rows, Update)
  {
    var out: seq<PreviewRow> := [];
    var created, updated := 0, 0;
    for k := 0 to |rows|
      invariant out == Planned(kind, readable, directory, rows[..k])
      invariant created == Count(out, Create) && updated == Count(out, Update)
    {
      var a := PlanRow(kind, readable, directory, rows[k]);
      PlannedStep(kind, readable, directory, rows, k + 1);
      CountStep(out, PreviewRow(rows[k].line, a), Create);
      CountStep(out, PreviewRow(rows[k].line, a), Update);
      out := out + [PreviewRow(rows[k].line, a)];
      if a == Update {
        updated := updated + 1;
      } else if a == Create {
        created := created + 1;
      }
    }
    assert rows[..|rows|] == rows;
    return Preview(out, created, updated);
  }

  /** `preview_csv` previews the first `max(1, max_rows)` rows. */
  method PreviewCsv(kind: Kind, readable: bool, directory: map<string, Fields>, rows: seq<SourceRow>, maxRows: int)
    returns (p: Preview)
    ensures var n := if maxRows < 1 then 1 else maxRows;
            p.rows == if n <= |rows| then Planned(kind, readable, directory, rows)[..n]
                      else Planned(kind, readable, directory, rows)
  {
    var n := if maxRows < 1 then 1 else maxRows;
    if n <= |rows| {
      PreviewOfPrefix(kind, readable, directory, rows, n);
      p := PreviewRows(kind, readable, directory, rows[..n]);
    } else {
      p := PreviewRows(kind, readable, directory, rows);
    }
  }

  /** Previewing a prefix gives the prefix of the full preview. */
  lemma PreviewOfPrefix(kind: Kind, readable: bool, directory: map<string, Fields>, rows: seq<SourceRow>, n: nat)
    requires n <= |rows|
    ensures Planned(kind, readable, directory, rows[..n]) == Planned(kind, readable, directory, rows)[..n]
  {
  }

  // ----- the import --------------------------------------------------------------------------

  datatype Summary = Summary(created: int, updated: int, errors: seq<int>)

  datatype Progress = Progress(directory: map<string, Fields>, summary: Summary)

  /** One row of the import; `writeOk` is whether a directory write would succeed. */
  function ImportRow(kind: Kind, readable: bool, writeOk: bool, p: Progress, row: SourceRow): Progress {
    var s := p.summary;
    if !Acceptable(kind, readable, row) || !writeOk then p.(summary := s.(errors := s.errors + [row.line]))
    else
      var code, payload := FiledCode(kind, row), ParsePayload(kind, row).value;
      if code in p.directory
      then Progress(p.directory[code := p.directory[code] + payload], s.(updated := s.updated + 1))
      else Progress(p.directory[code := payload], s.(created := s.created + 1))
  }

  function Imported(kind: Kind, readable: bool, writeOk: nat -> bool, directory: map<string, Fields>,
                    rows: seq<SourceRow>, k: nat): Progress
    requires k <= |rows|
  {
    if k == 0 then Progress(directory, Summary(0, 0, []))
    else ImportRow(kind, readable, writeOk(k - 1), Imported(kind, readable, writeOk, directory, rows, k - 1), rows[k - 1])
  }

  class MasterDataExchange {
    const kind: Kind
    var directory: map<string, Fields>

    constructor (kind: Kind, directory: map<string, Fields>)
      ensures this.kind == kind && this.directory == directory
    {
      this.kind := kind;
      this.directory := directory;
    }

    /** `_import_sites` and `_import_parties`. */
    method ImportRows(readable: bool, writeOk: nat -> bool, rows: seq<SourceRow>) returns (summary: Summary)
      modifies this`directory
      ensures Progress(directory, summary) == Imported(kind, readable, writeOk, old(directory), rows, |rows|)
    {
      summary := Summary(0, 0, []);
      for k := 0 to |rows|
        invariant Progress(directory, summary) == Imported(kind, readable, writeOk, old(directory), rows, k)
      {
        var row := rows[k];
        if TextOf(row, kind.codeField) == "" {
          summary := summary.(errors := summary.errors + [row.line]);
        } else if TextOf(row, kind.nameField) == "" {
          summary := summary.(errors := summary.errors + [row.line]);
        } else {
          var payload := ParsePayload(kind, row);
          if payload.None? || !readable {
            summary := summary.(errors := summary.errors + [row.line]);
          } else {
            var code := FiledCode(kind, row);
            if code !in directory {
              if writeOk(k) {
                directory := directory[code := payload.value];
                summary := summary.(created := summary.created + 1);
              } else {
                summary := summary.(errors := summary.errors + [row.line]);
              }
            } else {
              if writeOk(k) {
                directory := directory[code := directory[code] + payload.value];
                summary := summary.(updated := summary.updated + 1);
              } else {
                summary := summary.(errors := summary.errors + [row.line]);
              }
            }
          }
        }
      }
    }
  }

  // ----- conservation and accuracy -------------------------------------------------------------

  /** Every row is counted once: created, updated or in error. */
  lemma {:induction false} EveryRowIsCounted(kind: Kind, readable: bool, writeOk: nat -> bool, directory: map<string, Fields>,
                                             rows: seq<SourceRow>, k: nat)
    requires k <= |rows|
    ensures var s := Imported(kind, readable, writeOk, directory, rows, k).summary;
            s.created + s.updated + |s.errors| == k
  {
    if k > 0 { EveryRowIsCounted(kind, readable, writeOk, directory, rows, k - 1); }
  }

  function SkippedLines(rows: seq<PreviewRow>): seq<int> {
    if rows == [] then []
    else SkippedLines(rows[..|rows| - 1]) + if rows[|rows| - 1].action == Skip then [rows[|rows| - 1].line] else []
  }

  /** The filed codes of the acceptable rows among the first `k`. */
  function AcceptedCodes(kind: Kind, readable: bool, rows: seq<SourceRow>, k: nat): set<string>
    requires k <= |rows|
  {
    set j | 0 <= j < k && Acceptable(kind, readable, rows[j]) :: FiledCode(kind, rows[j])
  }

  lemma AcceptedCodesStep(kind: Kind, readable: bool, rows: seq<SourceRow>, k: nat)
    requires 0 < k <= |rows|
    ensures AcceptedCodes(kind, readable, rows, k)
         == AcceptedCodes(kind, readable, rows, k - 1)
            + if Acceptable(kind, readable, rows[k - 1]) then {FiledCode(kind, rows[k - 1])} else {}
  {
  }

  /** The row will be announced as a creation although an earlier row of the same file
      already creates its code. */
  predicate RepeatsNewCode(kind: Kind, readable: bool, directory: map<string, Fields>, rows: seq<SourceRow>, k: nat)
    requires k < |rows|
  {
    && Acceptable(kind, readable, rows[k])
    && FiledCode(kind, rows[k]) !in directory
    && FiledCode(kind, rows[k]) in AcceptedCodes(kind, readable, rows, k)
  }

  function Repeats(kind: Kind, readable: bool, directory: map<string, Fields>, rows: seq<SourceRow>, k: nat): nat
    requires k <= |rows|
  {
    if k == 0 then 0
    else Repeats(kind, readable, directory, rows, k - 1)
         + if RepeatsNewCode(kind, readable, directory, rows, k - 1) then 1 else 0
  }

  lemma PlannedStep(kind: Kind, readable: bool, directory: map<string, Fields>, rows: seq<SourceRow>, k: nat)
    requires 0 < k <= |rows|
    ensures Planned(kind, readable, directory, rows[..k])
         == Planned(kind, readable, directory, rows[..k - 1])
            + [PreviewRow(rows[k - 1].line, Plan(kind, readable, directory, rows[k - 1]))]
  {
  }

  lemma CountStep(rows: seq<PreviewRow>, last: PreviewRow, a: Action)
    ensures Count(rows + [last], a) == Count(rows, a) + if last.action == a then 1 else 0
    ensures SkippedLines(rows + [last]) == SkippedLines(rows) + if last.action == Skip then [last.line] else []
  {
  }

  /** What one row does to the filed codes and the summary, given whether it goes through
      and its own filed code. */
  predicate RowEffect(ok: bool, c: string, line: int, keys: set<string>, s: Summary, keys': set<string>, s': Summary) {
    if !ok then keys' == keys && s' == s.(errors := s.errors + [line])
    else if c in keys then keys' == keys && s' == s.(updated := s.updated + 1)
    else keys' == keys + {c} && s' == s.(created := s.created + 1)
  }

  lemma ImportRowEffect(kind: Kind, readable: bool, writeOk: bool, p: Progress, row: SourceRow)
    ensures var q := ImportRow(kind, readable, writeOk, p, row);
            && RowEffect(Acceptable(kind, readable, row) && writeOk, FiledCode(kind, row), row.line,
                         p.directory.Keys, p.summary, q.directory.Keys, q.summary)
            && (forall d :: d in p.directory && d != FiledCode(kind, row) ==> q.directory[d] == p.directory[d])
  {
  }

  /** The import and the preview agree, given the codes known before, the codes accepted so
      far and the codes filed now. */
  predicate Tracks(known: set<string>, accepted: set<string>, p: seq<PreviewRow>, keys: set<string>, s: Summary, repeats: nat) {
    && keys == known + accepted
    && s.errors == SkippedLines(p)
    && s.created == |accepted - known|
    && Count(p, Create) == s.created + repeats
    && Count(p, Create) + Count(p, Update) == s.created + s.updated
  }

  lemma TracksStep(known: set<string>, accepted: set<string>, p: seq<PreviewRow>, keys: set<string>, s: Summary, repeats: nat,
                   ok: bool, c: string, line: int, keys': set<string>, s': Summary)
    requires Tracks(known, accepted, p, keys, s, repeats) && RowEffect(ok, c, line, keys, s, keys', s')
    ensures Tracks(known, if ok then accepted + {c} else accepted,
                   p + [PreviewRow(line, if !ok then Skip else if c in known then Update else Create)], keys', s',
                   repeats + if ok && c !in known && c in accepted then 1 else 0)
  {
  }

  lemma ImportTracksStart(kind: Kind, readable: bool, writeOk: nat -> bool,
                          directory: map<string, Fields>, rows: seq<SourceRow>, k: nat)
    requires k == 0
    ensures TracksAt(kind, readable, writeOk, directory, rows, k)
  {
  }

  ghost predicate TracksAt(kind: Kind, readable: bool, writeOk: nat -> bool,
                           directory: map<string, Fields>, rows: seq<SourceRow>, k: nat)
    requires k <= |rows|
  {
    var i := Imported(kind, readable, writeOk, directory, rows, k);
    Tracks(directory.Keys, AcceptedCodes(kind, readable, rows, k), Planned(kind, readable, directory, rows[..k]),
           i.directory.Keys, i.summary, Repeats(kind, readable, directory, rows, k))
  }

  lemma {:induction false} ImportTracksPreview(kind: Kind, readable: bool, writeOk: nat -> bool,
                                               directory: map<string, Fields>, rows: seq<SourceRow>, k: nat)
    requires k <= |rows| && forall j: nat :: j < |rows| ==> writeOk(j)
    ensures TracksAt(kind, readable, writeOk, directory, rows, k)
  {
    if k == 0 {
      ImportTracksStart(kind, readable, writeOk, directory, rows, k);
    } else {
      ImportTracksPreview(kind, readable, writeOk, directory, rows, k - 1);
      ImportTracksStep(kind, readable, writeOk, directory, rows, k);
    }
  }

  lemma ImportTracksStep(kind: Kind, readable: bool, writeOk: nat -> bool,
                         directory: map<string, Fields>, rows: seq<SourceRow>, k: nat)
    requires 0 < k <= |rows| && writeOk(k - 1) && TracksAt(kind, readable, writeOk, directory, rows, k - 1)
    ensures TracksAt(kind, readable, writeOk, directory, rows, k)
  {
    var row := rows[k - 1];
    var ok, c := Acceptable(kind, readable, row), FiledCode(kind, row);
    var codes := AcceptedCodes(kind, readable, rows, k - 1);
    var i := Imported(kind, readable, writeOk, directory, rows, k - 1);
    var i' := ImportRow(kind, readable, true, i, row);
    PlannedStep(kind, readable, directory, rows, k);
    AcceptedCodesStep(kind, readable, rows, k);
    ImportRowEffect(kind, readable, true, i, row);
    TracksStep(directory.Keys, codes, Planned(kind, readable, directory, rows[..k - 1]), i.directory.Keys, i.summary,
               Repeats(kind, readable, directory, rows, k - 1), ok, c, row.line, i'.directory.Keys, i'.summary);
    assert AcceptedCodes(kind, readable, rows, k) == if ok then codes + {c} else codes;
  }

  /** If directory writes succeed, the import reports exactly the lines in error that the
      full preview announced, files exactly the accepted codes, creates exactly the distinct
      new ones, and the preview announces too many creations by exactly the number of rows
      that repeat a new code. */
  lemma PreviewPredictsImport(kind: Kind, readable: bool, writeOk: nat -> bool,
                              directory: map<string, Fields>, rows: seq<SourceRow>)
    requires forall j: nat :: j < |rows| ==> writeOk(j)
    ensures var p, i := Planned(kind, readable, directory, rows), Imported(kind, readable, writeOk, directory, rows, |rows|);
            && i.summary.errors == SkippedLines(p)
            && i.directory.Keys == directory.Keys + AcceptedCodes(kind, readable, rows, |rows|)
            && i.summary.created == |AcceptedCodes(kind, readable, rows, |rows|) - directory.Keys|
            && Count(p, Create) - i.summary.created == Repeats(kind, readable, directory, rows, |rows|)
            && i.summary.updated - Count(p, Update) == Repeats(kind, readable, directory, rows, |rows|)
  {
    assert rows[..|rows|] == rows;
    ImportTracksPreview(kind, readable, writeOk, directory, rows, |rows|);
  }

  /** Whatever writes fail, no directory entry is lost, and entries not named by an accepted
      row are untouched. */
  lemma {:induction false} ImportTouchesOnlyNamedCodes(kind: Kind, readable: bool, writeOk: nat -> bool,
                                                       directory: map<string, Fields>, rows: seq<SourceRow>, k: nat)
    requires k <= |rows|
    ensures var d := Imported(kind, readable, writeOk, directory, rows, k).directory;
            && directory.Keys <= d.Keys <= directory.Keys + AcceptedCodes(kind, readable, rows, k)
            && forall c :: c in directory && c !in AcceptedCodes(kind, readable, rows, k) ==> d[c] == directory[c]
  {
    if k > 0 {
      ImportTouchesOnlyNamedCodes(kind, readable, writeOk, directory, rows, k - 1);
      ImportRowEffect(kind, readable, writeOk(k - 1), Imported(kind, readable, writeOk, directory, rows, k - 1), rows[k - 1]);
      AcceptedCodesStep(kind, readable, rows, k);
    }
  }

  // ----- what is stored ---------------------------------------------------------------------------

  predicate Filled(row: SourceRow, f: string) {
    f in row.values && Strip(row.values[f]) != ""
  }

  predicate SaysYes(text: string) {
    var t := Lower(text);
    t == "1" || t == "true" || t == "yes" || t == "y" || t == "on"
  }

  predicate SaysNo(text: string) {
    var t := Lower(text);
    t == "0" || t == "false" || t == "no" || t == "n" || t == "off"
  }

  /** The row fills the field with this value: the flag as its text says, the type in
      capitals, any other column's text without the blanks around it. */
  predicate Fills(kind: Kind, row: SourceRow, f: string, v: string) {
    && Filled(row, f)
    && var text := Strip(row.values[f]);
       if f == "is_active" then (SaysYes(text) && v == "true") || (SaysNo(text) && v == "false")
       else if f == "party_type" && kind.types.Some? then v == Upper(text)
       else (f == kind.nameField || f in kind.textFields) && v == text
  }

  /** Code and name are there, the flag is a word for yes or no and the type a known one, if
      they are there. */
  predicate WellFormed(kind: Kind, row: SourceRow) {
    && Filled(row, kind.codeField) && Filled(row, kind.nameField)
    && (Filled(row, "is_active") ==> SaysYes(Strip(row.values["is_active"])) || SaysNo(Strip(row.values["is_active"])))
    && (Filled(row, "party_type") && kind.types.Some? ==> Upper(Strip(row.values["party_type"])) in kind.types.value)
  }

  /** Row `j` is well-formed, it is written, and it names this code. */
  predicate Writes(kind: Kind, readable: bool, writeOk: nat -> bool, rows: seq<SourceRow>, j: nat, c: string)
    requires j < |rows|
  {
    readable && WellFormed(kind, rows[j]) && writeOk(j) && Upper(Strip(rows[j].values[kind.codeField])) == c
  }

  lemma FlagTokens(text: string)
    ensures SaysYes(text) ==> Lower(text) != "" && !SaysNo(text)
    ensures SaysNo(text) ==> Lower(text) != ""
    ensures ParseOptionalBool(text) == if Lower(text) == "" then Absent
                                       else if SaysYes(text) then Value(true)
                                       else if SaysNo(text) then Value(false) else Invalid
  {
    var t := Lower(text);
    assert |"1"| == |"0"| == |"y"| == |"n"| == 1 && |"on"| == |"no"| == 2 && |"yes"| == |"off"| == 3 && |"true"| == 4 && |"false"| == 5;
    assert "1"[0] == '1' && "0"[0] == '0' && "y"[0] == 'y' && "n"[0] == 'n';
    assert "on"[0] == 'o' && "no"[0] == 'n' && "yes"[0] == 'y' && "off"[0] == 'o';
  }

  /** A row is acceptable exactly when the directory can be read and the row is well-formed. */
  lemma AcceptableExactly(kind: Kind, readable: bool, row: SourceRow)
    ensures Acceptable(kind, readable, row) <==> readable && WellFormed(kind, row)
    ensures Filled(row, kind.codeField) ==> FiledCode(kind, row) == Upper(Strip(row.values[kind.codeField]))
  {
    FlagTokens(TextOf(row, "is_active"));
    if Filled(row, kind.codeField) { StripIdempotent(row.values[kind.codeField]); }
  }

  /** Which column a field of the payload comes from. */
  lemma PayloadAt(kind: Kind, row: SourceRow, f: string)
    requires ParsePayload(kind, row).Some?
    ensures var p, active, ty := ParsePayload(kind, row).value, ParseOptionalBool(TextOf(row, "is_active")),
                                 ParseOptionalType(kind, TextOf(row, "party_type"));
            if f == "is_active" && active.Value? then f in p && p[f] == if active.value then "true" else "false"
            else if f == "party_type" && ty.Value? then f in p && p[f] == ty.value
            else if f in kind.textFields && TextOf(row, f) != "" then f in p && p[f] == TextOf(row, f)
            else if f == kind.nameField then f in p && p[f] == TextOf(row, f)
            else f !in p
  {
    assert |"is_active"| == 9 && |"party_type"| == 10;
  }

  /** What is written of an acceptable row is what it fills. */
  lemma PayloadIsFilled(kind: Kind, row: SourceRow, f: string, v: string)
    requires Acceptable(kind, true, row)
    ensures var p := ParsePayload(kind, row).value; f in p && p[f] == v <==> Fills(kind, row, f, v)
  {
    PayloadAt(kind, row, f);
    FlagTokens(TextOf(row, "is_active"));
    if f == "is_active" {
      assert |"is_active"| == 9 && |"party_type"| == 10;
      assert Lower(TextOf(row, f)) == "" <==> TextOf(row, f) == "";
    }
  }

  ghost predicate Holds(d: map<string, Fields>, c: string, f: string, v: string) {
    c in d && f in d[c] && d[c][f] == v
  }

  ghost predicate FillsSome(kind: Kind, row: SourceRow, f: string) {
    exists v :: Fills(kind, row, f, v)
  }

  /** No row written for the code from `lo` up to `hi` fills the field. */
  ghost predicate Silent(kind: Kind, readable: bool, writeOk: nat -> bool, rows: seq<SourceRow>, lo: nat, hi: nat, c: string, f: string)
    requires hi <= |rows|
  {
    forall i: nat :: lo <= i < hi && Writes(kind, readable, writeOk, rows, i, c) ==> !FillsSome(kind, rows[i], f)
  }

  /** Among the first `k` rows, `j` is the last one written for the code that fills the
      field, and it fills it with this value. */
  ghost predicate IsLastWord(kind: Kind, readable: bool, writeOk: nat -> bool, rows: seq<SourceRow>, j: nat, k: nat, c: string, f: string, v: string)
    requires j < k <= |rows|
  {
    Writes(kind, readable, writeOk, rows, j, c) && Fills(kind, rows[j], f, v) && Silent(kind, readable, writeOk, rows, j + 1, k, c, f)
  }

  ghost predicate LastFills(kind: Kind, readable: bool, writeOk: nat -> bool, rows: seq<SourceRow>, k: nat, c: string, f: string, v: string)
    requires k <= |rows|
  {
    exists j: nat :: j < k && IsLastWord(kind, readable, writeOk, rows, j, k, c, f, v)
  }

  lemma RowStores(kind: Kind, readable: bool, writeOk: nat -> bool, directory: map<string, Fields>, rows: seq<SourceRow>, k: nat,
                  c: string, f: string, v: string)
    requires 0 < k <= |rows|
    ensures var before, after := Imported(kind, readable, writeOk, directory, rows, k - 1).directory,
                                 Imported(kind, readable, writeOk, directory, rows, k).directory;
            Holds(after, c, f, v)
            <==> if Writes(kind, readable, writeOk, rows, k - 1, c) && FillsSome(kind, rows[k - 1], f)
                 then Fills(kind, rows[k - 1], f, v) else Holds(before, c, f, v)
  {
    var row := rows[k - 1];
    var p := Imported(kind, readable, writeOk, directory, rows, k - 1);
    AcceptableExactly(kind, readable, row);
    if Writes(kind, readable, writeOk, rows, k - 1, c) {
      var payload := ParsePayload(kind, row).value;
      PayloadIsFilled(kind, row, f, v);
      assert f in payload <==> FillsSome(kind, row, f) by {
        if f in payload { PayloadIsFilled(kind, row, f, payload[f]); }
        if FillsSome(kind, row, f) {
          var w :| Fills(kind, row, f, w);
          PayloadIsFilled(kind, row, f, w);
        }
      }
      var after := ImportRow(kind, readable, writeOk(k - 1), p, row).directory;
      assert after[c] == if c in p.directory then p.directory[c] + payload else payload;
    }
  }

  lemma SilentStep(kind: Kind, readable: bool, writeOk: nat -> bool, rows: seq<SourceRow>, lo: nat, k: nat, c: string, f: string)
    requires lo < k <= |rows|
    ensures Silent(kind, readable, writeOk, rows, lo, k, c, f)
       <==> !(Writes(kind, readable, writeOk, rows, k - 1, c) && FillsSome(kind, rows[k - 1], f))
            && Silent(kind, readable, writeOk, rows, lo, k - 1, c, f)
  {
  }

  lemma LastFillsStep(kind: Kind, readable: bool, writeOk: nat -> bool, rows: seq<SourceRow>, k: nat, c: string, f: string, v: string)
    requires 0 < k <= |rows|
    ensures LastFills(kind, readable, writeOk, rows, k, c, f, v)
       <==> if Writes(kind, readable, writeOk, rows, k - 1, c) && FillsSome(kind, rows[k - 1], f)
            then Fills(kind, rows[k - 1], f, v) else LastFills(kind, readable, writeOk, rows, k - 1, c, f, v)
  {
    assert IsLastWord(kind, readable, writeOk, rows, k - 1, k, c, f, v)
      <==> Writes(kind, readable, writeOk, rows, k - 1, c) && Fills(kind, rows[k - 1], f, v);
    forall j: nat | j < k - 1
      ensures IsLastWord(kind, readable, writeOk, rows, j, k, c, f, v)
         <==> && !(Writes(kind, readable, writeOk, rows, k - 1, c) && FillsSome(kind, rows[k - 1], f))
              && IsLastWord(kind, readable, writeOk, rows, j, k - 1, c, f, v)
    {
      SilentStep(kind, readable, writeOk, rows, j + 1, k, c, f);
    }
    assert Fills(kind, rows[k - 1], f, v) ==> FillsSome(kind, rows[k - 1], f);
    if LastFills(kind, readable, writeOk, rows, k - 1, c, f, v) {
      var j: nat :| j < k - 1 && IsLastWord(kind, readable, writeOk, rows, j, k - 1, c, f, v);
      assert IsLastWord(kind, readable, writeOk, rows, j, k, c, f, v)
        <==> !(Writes(kind, readable, writeOk, rows, k - 1, c) && FillsSome(kind, rows[k - 1], f));
    }
  }

  /** What the last of the first `k` rows written for the code that fills the field says; the
      value held before when no such row fills it. */
  ghost predicate HasLastWord(kind: Kind, readable: bool, writeOk: nat -> bool, directory: map<string, Fields>, rows: seq<SourceRow>,
                              k: nat, c: string, f: string, v: string)
    requires k <= |rows|
  {
    || LastFills(kind, readable, writeOk, rows, k, c, f, v)
    || (Holds(directory, c, f, v) && Silent(kind, readable, writeOk, rows, 0, k, c, f))
  }

  lemma LastWordStep(kind: Kind, readable: bool, writeOk: nat -> bool, directory: map<string, Fields>, rows: seq<SourceRow>, k: nat,
                     c: string, f: string, v: string)
    requires 0 < k <= |rows|
    ensures HasLastWord(kind, readable, writeOk, directory, rows, k, c, f, v)
       <==> if Writes(kind, readable, writeOk, rows, k - 1, c) && FillsSome(kind, rows[k - 1], f)
            then Fills(kind, rows[k - 1], f, v) else HasLastWord(kind, readable, writeOk, directory, rows, k - 1, c, f, v)
  {
    LastFillsStep(kind, readable, writeOk, rows, k, c, f, v);
    SilentStep(kind, readable, writeOk, rows, 0, k, c, f);
  }

  lemma NoRowNoWord(kind: Kind, readable: bool, writeOk: nat -> bool, directory: map<string, Fields>, rows: seq<SourceRow>,
                    c: string, f: string, v: string)
    ensures HasLastWord(kind, readable, writeOk, directory, rows, 0, c, f, v) <==> Holds(directory, c, f, v)
  {
  }

  /** After an import a field of an entry holds what the last row written for its code that
      fills it says; a field that no such row fills holds what it held before. */
  lemma {:induction false} ImportStoresTheLastWord(kind: Kind, readable: bool, writeOk: nat -> bool, directory: map<string, Fields>,
                                                   rows: seq<SourceRow>, k: nat, c: string, f: string, v: string)
    requires k <= |rows|
    ensures Holds(Imported(kind, readable, writeOk, directory, rows, k).directory, c, f, v)
       <==> HasLastWord(kind, readable, writeOk, directory, rows, k, c, f, v)
  {
    if k == 0 {
      NoRowNoWord(kind, readable, writeOk, directory, rows, c, f, v);
    } else {
      ImportStoresTheLastWord(kind, readable, writeOk, directory, rows, k - 1, c, f, v);
      RowStores(kind, readable, writeOk, directory, rows, k, c, f, v);
      LastWordStep(kind, readable, writeOk, directory, rows, k, c, f, v);
    }
  }

  ghost predicate SomeRowWrites(kind: Kind, readable: bool, writeOk: nat -> bool, rows: seq<SourceRow>, k: nat, c: string)
    requires k <= |rows|
  {
    exists j: nat :: j < k && Writes(kind, readable, writeOk, rows, j, c)
  }

  /** The entries after an import are those from before and the codes of the rows written. */
  lemma {:induction false} ImportFilesWrittenCodes(kind: Kind, readable: bool, writeOk: nat -> bool, directory: map<string, Fields>,
                                                   rows: seq<SourceRow>, k: nat, c: string)
    requires k <= |rows|
    ensures c in Imported(kind, readable, writeOk, directory, rows, k).directory
       <==> c in directory || SomeRowWrites(kind, readable, writeOk, rows, k, c)
  {
    if k > 0 {
      ImportFilesWrittenCodes(kind, readable, writeOk, directory, rows, k - 1, c);
      OneMoreRow(kind, readable, writeOk, rows, k, c);
      RowFiles(kind, readable, writeOk, directory, rows, k, c);
    }
  }

  lemma OneMoreRow(kind: Kind, readable: bool, writeOk: nat -> bool, rows: seq<SourceRow>, k: nat, c: string)
    requires 0 < k <= |rows|
    ensures SomeRowWrites(kind, readable, writeOk, rows, k, c)
       <==> SomeRowWrites(kind, readable, writeOk, rows, k - 1, c) || Writes(kind, readable, writeOk, rows, k - 1, c)
  {
  }

  lemma RowFiles(kind: Kind, readable: bool, writeOk: nat -> bool, directory: map<string, Fields>, rows: seq<SourceRow>, k: nat, c: string)
    requires 0 < k <= |rows|
    ensures c in Imported(kind, readable, writeOk, directory, rows, k).directory
       <==> c in Imported(kind, readable, writeOk, directory, rows, k - 1).directory || Writes(kind, readable, writeOk, rows, k - 1, c)
  {
    AcceptableExactly(kind, readable, rows[k - 1]);
    ImportRowEffect(kind, readable, writeOk(k - 1), Imported(kind, readable, writeOk, directory, rows, k - 1), rows[k - 1]);
  }

  /** A file that gives the same new site twice: the preview announces two creations, the
      import makes one creation and one update. */
  lemma RepeatedRowIsAnnouncedTwice(kind: Kind, row: SourceRow)
    requires kind == Kind("c", "n", {}, None) && row == SourceRow(1, map["c" := "a", "n" := "b"])
    ensures var rows, writes := [row, row], (j: nat) => true;
            && Count(Planned(kind, true, map[], rows), Create) == 2
            && Imported(kind, true, writes, map[], rows, 2).summary == Summary(1, 1, [])
  {
    ExampleRowIsAcceptable(kind, row);
    var rows, writes := [row, row], (j: nat) => true;
    var one, none := PreviewRow(1, Create), map[];
    assert Planned(kind, true, none, rows) == [] + [one] + [one];
    CountStep([], one, Create);
    CountStep([] + [one], one, Create);
    assert rows[0] == row && rows[1] == row;
    assert Imported(kind, true, writes, none, rows, 0) == Progress(none, Summary(0, 0, []));
    assert Imported(kind, true, writes, none, rows, 1).summary == Summary(1, 0, []);
  }

  lemma ExampleRowIsAcceptable(kind: Kind, row: SourceRow)
    requires kind == Kind("c", "n", {}, None) && row == SourceRow(1, map["c" := "a", "n" := "b"])
    ensures Acceptable(kind, true, row)
  {
    TrimmedIsFixed("a");
    TrimmedIsFixed("b");
    assert "is_active" !in row.values && "party_type" !in row.values by { assert |"is_active"| == 9 && |"party_type"| == 10; }
    assert Lower("") == "";
  }
}
