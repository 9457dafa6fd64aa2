/**
 The terminal preference document: what `read_document` sees in a file, what
 `prepare_locked` writes back, and the store's methods run by one process.
 TOML text is modelled by the table it parses to.
 */
module Preferences {
  import opened Common

  datatype Toml = Text(text: string) | Boolean(value: bool) | OtherKind(id: int)

  type Table = map<string, Toml>

  datatype Prefs = Prefs(theme: Option<string>, showDonate: bool)

  datatype File = Absent | Unparseable | Document(table: Table)

  datatype ReadError = ParseFailed | ThemeNotString | DonateNotBoolean

  const THEME := "theme"
  const SHOW_DONATE := "show_donate"

  function ReadDocument(file: File): (r: Result<(Table, Prefs), ReadError>)
    ensures r.Ok? ==>
              && r.value.0 == (if file.Document? then file.table else map[])
              && (match r.value.1.theme
                  case Some(theme) => THEME in r.value.0 && r.value.0[THEME] == Text(theme)
                  case None => THEME !in r.value.0)
              && (if SHOW_DONATE in r.value.0 then r.value.0[SHOW_DONATE] == Boolean(r.value.1.showDonate)
                  else r.value.1.showDonate)
    ensures file.Absent? ==> r == Ok((map[], Prefs(None, true)))
    ensures r == Err(ParseFailed) <==> file.Unparseable?
    ensures r.Ok? <==>
              && !file.Unparseable?
              && (file.Document? && THEME in file.table ==> file.table[THEME].Text?)
              && (file.Document? && SHOW_DONATE in file.table ==> file.table[SHOW_DONATE].Boolean?)
  {
    if file.Unparseable? then Err(ParseFailed) else
    var table := if file.Absent? then map[] else file.table;
    if THEME in table && !table[THEME].Text? then Err(ThemeNotString)
    else if SHOW_DONATE in table && !table[SHOW_DONATE].Boolean? then Err(DonateNotBoolean)
    else
      var theme := if THEME in table then Some(table[THEME].text) else None;
      var showDonate := if SHOW_DONATE in table then table[SHOW_DONATE].value else true;
      Ok((table, Prefs(theme, showDonate)))
  }

  /** The document `prepare_locked` hands to `persist`. */
  function Edited(table: Table, candidate: Prefs): (r: Table)
    ensures r.Keys - {THEME, SHOW_DONATE} == table.Keys - {THEME, SHOW_DONATE}
    ensures Foreign(r) == Foreign(table)
    ensures ReadDocument(Document(r)) == Ok((r, candidate))
  {
    var themed := match candidate.theme
      case Some(theme) => table[THEME := Text(theme)]
      case None => table - {THEME};
    var r := themed[SHOW_DONATE := Boolean(candidate.showDonate)];
    assert Foreign(r) == Foreign(table);
    r
  }

  /** Everything the store does not own. */
  function Foreign(table: Table): Table {
    table - {THEME, SHOW_DONATE}
  }

  /** A readable file became one that holds exactly these preferences, and every key the store does not own stayed. */
  predicate Turned(before: File, after: File, wanted: Prefs) {
    var first, last := ReadDocument(before), ReadDocument(after);
    first.Ok? && last.Ok? && last.value.1 == wanted && Foreign(last.value.0) == Foreign(first.value.0)
  }

  lemma LastEditWins(table: Table, first: Prefs, second: Prefs)
    ensures Edited(Edited(table, first), second) == Edited(table, second)
  {
    assert Edited(Edited(table, first), second).Keys == Edited(table, second).Keys;
  }

  // ----- Requests and their effect when nothing else runs -----

  datatype Request =
    | Load
    | Modify(mutate: Prefs -> Prefs)
    | Restore(before: Prefs, candidate: Prefs, recovering: bool)

  /** `prepare` refuses exactly here. */
  predicate Conflicts(request: Request, current: Prefs) {
    request.Restore? && current != request.before && !(request.recovering && current == request.candidate)
  }

  predicate Accepts(file: File, request: Request) {
    var read := ReadDocument(file);
    read.Ok? && !request.Load? && !Conflicts(request, read.value.1)
  }

  function Wanted(request: Request, current: Prefs): Prefs {
    match request
    case Load => current
    case Modify(mutate) => mutate(current)
    case Restore(_, candidate, _) => candidate
  }

  /** What the request leaves behind when it runs alone on `file` and its write lands. */
  function Serial(file: File, request: Request): File {
    if !Accepts(file, request) then file else
    var (table, current) := ReadDocument(file).value;
    Document(Edited(table, Wanted(request, current)))
  }

  /** Serial execution of a list of requests. */
  function Replay(file: File, requests: seq<Request>): File {
    if requests == [] then file
    else Serial(Replay(file, requests[..|requests| - 1]), requests[|requests| - 1])
  }

  // ----- The store's methods, one process at a time -----

  /** What became of the temporary file: `durable_replace` renames, then syncs the directory. */
  datatype Replace = NotReplaced | ReplacedUnsynced | Replaced

  datatype Written = Written | ShutdownPending | WriteFailed

  datatype StoreError = Unreadable(error: ReadError) | Conflict | NotPersisted

  class Disk {
    var file: File
    constructor (initial: File) ensures file == initial { file := initial; }
  }

  class Prepared {
    const disk: Disk
    const payload: Table
    var durable: bool

    constructor (disk: Disk, payload: Table)
      ensures this.disk == disk && this.payload == payload && !durable
    {
      this.disk := disk;
      this.payload := payload;
      durable := false;
    }

    /** A second `persist` after a durable one writes nothing, whatever the disk would do. */
    method Persist(shutdown: bool, replace: Replace) returns (outcome: Written)
      modifies this`durable, disk
      ensures old(durable) ==> outcome == Written.Written && disk.file == old(disk.file) && durable
      ensures !old(durable) && shutdown ==>
                outcome == ShutdownPending && disk.file == old(disk.file) && !durable
      ensures !old(durable) && !shutdown ==>
                && durable == replace.Replaced?
                && outcome == (if replace.Replaced? then Written.Written else WriteFailed)
                && disk.file == if replace.NotReplaced? then old(disk.file) else Document(payload)
    {
      if durable {
        return Written.Written;
      }
      if shutdown {
        return ShutdownPending;
      }
      if replace.NotReplaced? {
        return WriteFailed;
      }
      disk.file := Document(payload);
      if replace.ReplacedUnsynced? {
        return WriteFailed;
      }
      durable := true;
      return Written.Written;
    }
  }

  class Store {
    const disk: Disk

    constructor (disk: Disk) ensures this.disk == disk { this.disk := disk; }

    method PrepareLocked(document: Table, candidate: Prefs) returns (prepared: Prepared)
      ensures fresh(prepared) && prepared.disk == disk && !prepared.durable
      ensures prepared.payload == Edited(document, candidate)
    {
      var table := document;
      match candidate.theme {
        case Some(theme) => table := table[THEME := Text(theme)];
        case None => table := table - {THEME};
      }
      table := table[SHOW_DONATE := Boolean(candidate.showDonate)];
      prepared := new Prepared(disk, table);
    }

    /** `prepare` writes nothing; the payload it holds reads as the candidate and is what a lone run would leave. */
    method Prepare(before: Prefs, candidate: Prefs, recovering: bool)
      returns (r: Result<Prepared, StoreError>)
      ensures r.Ok? <==> Accepts(disk.file, Restore(before, candidate, recovering))
      ensures r.Ok? ==>
                && fresh(r.value) && r.value.disk == disk && !r.value.durable
                && Document(r.value.payload) == Serial(disk.file, Restore(before, candidate, recovering))
                && ReadDocument(Document(r.value.payload)) == Ok((r.value.payload, candidate))
                && Foreign(r.value.payload) == Foreign(ReadDocument(disk.file).value.0)
      ensures r == Err(Conflict) <==>
                && ReadDocument(disk.file).Ok?
                && ReadDocument(disk.file).value.1 != before
                && !(recovering && ReadDocument(disk.file).value.1 == candidate)
    {
      var read := ReadDocument(disk.file);
      if read.Err? {
        return Err(Unreadable(read.error));
      }
      var (document, current) := read.value;
      if current != before && !(recovering && current == candidate) {
        return Err(Conflict);
      }
      var prepared := PrepareLocked(document, candidate);
      r := Ok(prepared);
    }

    /** `modify`: once the rename lands, the file holds what `mutate` makes of the preferences read before. */
    method Modify(mutate: Prefs -> Prefs, replace: Replace) returns (r: Result<(), StoreError>)
      modifies disk
      ensures r.Ok? <==> ReadDocument(old(disk.file)).Ok? && replace.Replaced?
      ensures ReadDocument(old(disk.file)).Ok? && !replace.NotReplaced? ==>
                Turned(old(disk.file), disk.file, mutate(ReadDocument(old(disk.file)).value.1))
      ensures ReadDocument(old(disk.file)).Err? || replace.NotReplaced? ==> disk.file == old(disk.file)
      ensures disk.file == if replace.NotReplaced? then old(disk.file)
                           else Serial(old(disk.file), Request.Modify(mutate))
    {
      var read := ReadDocument(disk.file);
      if read.Err? {
        return Err(Unreadable(read.error));
      }
      var (document, current) := read.value;
      var prepared := PrepareLocked(document, mutate(current));
      var outcome := prepared.Persist(false, replace);
      if outcome == Written.Written {
        return Ok(());
      }
      return Err(NotPersisted);
    }
  }
}
