/** The SD-card back end of the settings: files of lines, operated through full keys such as
    `wifi/ssid`, and the finite map it is meant to be. */
module SdSettings {
  import opened Basics
  import opened SettingsText

  datatype Code = TooBig | Invalid | NoEntry | IoError

  // An overrun leaves a buffer; nothing is said about what memory and card hold afterwards.
  datatype Result = Done | Value(value: string) | Failed(code: Code) | Overrun

  // Where a setting lives: the file of a namespace, and a key within it.
  datatype Slot = Slot(namespace: string, key: string)

  datatype Op =
    | Set(key: string, value: string)
    | Get(key: string, maxLen: nat)
    | Delete(key: string)

  // ---------- Keys and paths ----------

  // The index after the last slash, or 0.
  function AfterLastSlash(s: string): (n: nat)
    ensures n <= |s|
    ensures 0 < n ==> s[n - 1] == '/'
    ensures forall i :: n <= i < |s| ==> s[i] != '/'
  {
    if s == "" then 0
    else if s[|s| - 1] == '/' then |s|
    else AfterLastSlash(s[..|s| - 1])
  }

  function ParseKey(full: string): Slot {
    var n := AfterLastSlash(full);
    if n == 0 then Slot("", full) else Slot(full[..n - 1], full[n..])
  }

  // Both parts of a key fit, with their terminators, the buffers they are copied to.
  predicate KeyFits(slot: Slot, limit: nat) {
    |slot.key| < limit && |slot.namespace| < limit
  }

  function FilePath(namespace: string): string {
    "/SD:/settings/" + namespace + "/" + namespace[AfterLastSlash(namespace)..] + ".txt"
  }

  lemma LastSlashIs(s: string, n: nat)
    requires 0 < n <= |s| && s[n - 1] == '/' && forall i :: n <= i < |s| ==> s[i] != '/'
    ensures AfterLastSlash(s) == n
  {
  }

  /** A full key is split at its last slash. */
  lemma SplitsAtLastSlash(namespace: string, key: string)
    requires '/' !in key
    ensures ParseKey(namespace + "/" + key) == Slot(namespace, key) && ParseKey(key) == Slot("", key)
  {
    var full := namespace + "/" + key;
    LastSlashIs(full, |namespace| + 1);
    assert full[..|namespace|] == namespace && full[|namespace| + 1..] == key;
    assert AfterLastSlash(key) == 0;
  }

  /** The file of a namespace is a directory of its name, and in it a file named after the part
      behind its last slash. */
  lemma FileOfNamespace(above: string, name: string)
    requires '/' !in name
    ensures FilePath(name) == "/SD:/settings/" + name + "/" + name + ".txt"
    ensures FilePath(above + "/" + name) == "/SD:/settings/" + above + "/" + name + "/" + name + ".txt"
  {
    var namespace := above + "/" + name;
    assert AfterLastSlash(name) == 0;
    LastSlashIs(namespace, |above| + 1);
    assert namespace[|above| + 1..] == name && name[0..] == name;
    assert "/SD:/settings/" + namespace == "/SD:/settings/" + above + "/" + name;
  }

  /** Two full keys name the same setting only if they are equal, or differ in a leading
      slash before a key without any. */
  lemma SameSlotIff(a: string, b: string)
    ensures ParseKey(a) == ParseKey(b) <==>
      a == b || ('/' !in b && a == "/" + b) || ('/' !in a && b == "/" + a)
  {
    var m, n := AfterLastSlash(a), AfterLastSlash(b);
    assert m > 0 ==> a == a[..m - 1] + "/" + a[m..];
    assert n > 0 ==> b == b[..n - 1] + "/" + b[n..];
    if '/' !in b && a == "/" + b {
      LastSlashIs(a, 1);
      assert a[..0] == "" && a[1..] == b;
    }
    if '/' !in a && b == "/" + a {
      LastSlashIs(b, 1);
      assert b[..0] == "" && b[1..] == a;
    }
  }

  lemma PathsAreDistinct(ns: string, ns': string)
    ensures FilePath(ns) == FilePath(ns') <==> ns == ns'
  {
    var root := "/SD:/settings/";
    assert |root| == 14;
    NamespaceOfPath(ns);
    NamespaceOfPath(ns');
  }

  lemma NamespaceOfPath(ns: string)
    ensures var n := AfterLastSlash(FilePath(ns)); 15 <= n && FilePath(ns)[14..n - 1] == ns
  {
    var root, tail := "/SD:/settings/", ns[AfterLastSlash(ns)..] + ".txt";
    assert |root| == 14;
    assert FilePath(ns) == root + ns + "/" + tail;
    assert '/' !in tail;
    LastSlashIs(FilePath(ns), 14 + |ns| + 1);
  }

  function Lower(c: char): char {
    if 'A' <= c <= 'Z' then c - 'A' + 'a' else c
  }

  // A path as a card compares it that ignores the case of letters.
  function Fold(s: string): (r: string)
    ensures |r| == |s|
    ensures forall i :: 0 <= i < |s| ==> r[i] == Lower(s[i])
  {
    seq(|s|, i requires 0 <= i < |s| => Lower(s[i]))
  }

  lemma FoldKeepsSlashes(s: string)
    ensures AfterLastSlash(Fold(s)) == AfterLastSlash(s)
  {
    var n := AfterLastSlash(s);
    assert forall i :: 0 <= i < |s| ==> (Fold(s)[i] == '/' <==> s[i] == '/');
    hide Fold;
    assert AfterLastSlash(Fold(s)) <= n;
  }

  lemma FoldJoins(s: string, u: string)
    ensures Fold(s + u) == Fold(s) + Fold(u)
  {
    forall i | 0 <= i < |s + u|
      ensures Fold(s + u)[i] == (Fold(s) + Fold(u))[i]
    {
      assert (s + u)[i] == if i < |s| then s[i] else u[i - |s|];
    }
    hide Fold;
  }

  /** On a card that ignores case, two namespaces share a file exactly if they differ in nothing
      but case. */
  lemma SharedFileIff(ns: string, ns': string)
    ensures Fold(FilePath(ns)) == Fold(FilePath(ns')) <==> Fold(ns) == Fold(ns')
  {
    FoldedPath(ns);
    FoldedPath(ns');
    hide Fold, FilePath;
    NamespaceOfFolded(ns);
    NamespaceOfFolded(ns');
  }

  function FoldedPathOf(ns: string): string {
    Fold("/SD:/settings/") + ns + "/" + ns[AfterLastSlash(ns)..] + Fold(".txt")
  }

  lemma FoldedPath(ns: string)
    ensures Fold(FilePath(ns)) == FoldedPathOf(Fold(ns))
  {
    var name := ns[AfterLastSlash(ns)..];
    assert Fold(ns)[AfterLastSlash(Fold(ns))..] == Fold(name) by {
      FoldKeepsSlashes(ns);
    }
    assert Fold("/") == "/";
    hide Fold, AfterLastSlash;
    FoldJoins("/SD:/settings/", ns);
    FoldJoins("/SD:/settings/" + ns, "/");
    FoldJoins("/SD:/settings/" + ns + "/", name);
    FoldJoins("/SD:/settings/" + ns + "/" + name, ".txt");
  }

  lemma NamespaceOfFolded(ns: string)
    ensures var n := AfterLastSlash(FoldedPathOf(Fold(ns))); 15 <= n && FoldedPathOf(Fold(ns))[14..n - 1] == Fold(ns)
  {
    var root, ext := "/SD:/settings/", Fold(".txt");
    assert |root| == 14 && '/' !in ext;
    LastSlashIs(FoldedPathOf(Fold(ns)), 14 + |ns| + 1);
  }

  // ---------- The operations on files ----------

  function SetFile(files: map<string, string>, path: string, key: string, value: string): map<string, string> {
    var text := if path in files then files[path] else "";
    files[path := SetText(text, key, Line(Entry(key, value)), false)]
  }

  function DeleteInFile(files: map<string, string>, path: string, key: string): map<string, string>
    requires path in files
  {
    var text := DeleteText(files[path], key);
    if text == "" then files - {path} else files[path := text]
  }

  /** What the caller's buffer holds: the escaped value is cut to the store's limit before it
      is unescaped, and the result is cut to the buffer. */
  function Shown(escaped: string, limit: nat, maxLen: nat): string
    requires 0 < limit && 0 < maxLen
  {
    Prefix(Unescape(Prefix(escaped, limit - 1)), maxLen - 1)
  }

  /** One public call. `writeOk` says whether a file write or removal succeeds. */
  function Step(files: map<string, string>, limit: nat, op: Op, writeOk: bool): (map<string, string>, Result) {
    var slot := ParseKey(op.key);
    var path := FilePath(slot.namespace);
    match op
    case Set(key, value) =>
      if |value| >= limit || |key| >= limit then (files, Failed(TooBig))
      else if |path| >= limit then (files, Failed(Invalid))
      else if !writeOk then (files, Failed(IoError))
      else (SetFile(files, path, slot.key, value), Done)
    case Get(key, maxLen) =>
      if maxLen == 0 || |key| >= limit || |path| >= limit then (files, Failed(Invalid))
      else if path !in files then (files, Failed(NoEntry))
      else
        (match GetText(files[path], slot.key)
         case None => (files, Failed(NoEntry))
         case Some(escaped) => (files, Value(Shown(escaped, limit, maxLen))))
    case Delete(key) =>
      if !KeyFits(slot, limit) then (files, Overrun)
      else if |path| >= limit then (files, Failed(Invalid))
      else if path !in files || !HasLine(files[path], slot.key) then (files, Failed(NoEntry))
      else if !writeOk then (files, Failed(IoError))
      else (DeleteInFile(files, path, slot.key), Done)
  }

  /** What of a value a get returns: what the store's limit leaves of it, up to the end of the
      caller's buffer. */
  function Answer(value: string, limit: nat, maxLen: nat): string
    requires 0 < limit && 0 < maxLen
  {
    var text := ReadBack(value, limit - 1);
    if |text| < maxLen then text else text[..maxLen - 1]
  }

  lemma ShownIsAnswer(value: string, limit: nat, maxLen: nat)
    requires 0 < limit && 0 < maxLen
    ensures Shown(Escape(value), limit, maxLen) == Answer(value, limit, maxLen)
  {
    CutReadsBack(value, limit - 1);
    hide Unescape, Escape, ReadBack;
  }

  /** The same call on a finite map from slots to values. */
  function MapStep(m: map<Slot, string>, limit: nat, op: Op, writeOk: bool): (map<Slot, string>, Result) {
    var slot := ParseKey(op.key);
    var path := FilePath(slot.namespace);
    match op
    case Set(key, value) =>
      if |value| >= limit || |key| >= limit then (m, Failed(TooBig))
      else if |path| >= limit then (m, Failed(Invalid))
      else if !writeOk then (m, Failed(IoError))
      else (m[slot := value], Done)
    case Get(key, maxLen) =>
      if maxLen == 0 || |key| >= limit || |path| >= limit then (m, Failed(Invalid))
      else if slot !in m then (m, Failed(NoEntry))
      else (m, Value(Answer(m[slot], limit, maxLen)))
    case Delete(key) =>
      if |slot.key| >= limit || |slot.namespace| >= limit then (m, Overrun)
      else if |path| >= limit then (m, Failed(Invalid))
      else if slot !in m then (m, Failed(NoEntry))
      else if !writeOk then (m, Failed(IoError))
      else (m - {slot}, Done)
  }

  /** Sets and gets check the length of the key first, so that its parts fit; a delete does not,
      and leaves the buffers exactly if the part behind the last slash or the part before it is
      as long as the limit. */
  lemma CopiesStayInsideIff(files: map<string, string>, limit: nat, op: Op, writeOk: bool)
    ensures Step(files, limit, op, writeOk).1 == Overrun
      <==> op.Delete? && !(|ParseKey(op.key).key| < limit && |ParseKey(op.key).namespace| < limit)
    ensures !op.Delete? && |op.key| < limit ==> KeyFits(ParseKey(op.key), limit)
  {
    hide FilePath, SetFile, GetText, HasLine, DeleteInFile, Shown;
  }

  datatype Event = Event(op: Op, writeOk: bool)

  function Run(files: map<string, string>, limit: nat, run: seq<Event>): (map<string, string>, seq<Result>)
    decreases |run|
  {
    if run == [] then (files, []) else
    var (next, result) := Step(files, limit, run[0].op, run[0].writeOk);
    var (last, results) := Run(next, limit, run[1..]);
    (last, [result] + results)
  }

  function MapRun(m: map<Slot, string>, limit: nat, run: seq<Event>): (map<Slot, string>, seq<Result>)
    decreases |run|
  {
    if run == [] then (m, []) else
    var (next, result) := MapStep(m, limit, run[0].op, run[0].writeOk);
    var (last, results) := MapRun(next, limit, run[1..]);
    (last, [result] + results)
  }

  // ---------- The files as a map ----------

  // The entries of every file.
  type Book = map<string, seq<Entry>>

  function Printed(book: Book): map<string, string> {
    map p | p in book :: Print(book[p])
  }

  function EntriesAt(book: Book, path: string): seq<Entry> {
    if path in book then book[path] else []
  }

  function Find(book: Book, slot: Slot): Option<string> {
    Lookup(EntriesAt(book, FilePath(slot.namespace)), slot.key)
  }

  function KeysAt(slots: set<Slot>, path: string): set<string> {
    set s | s in slots && FilePath(s.namespace) == path :: s.key
  }

  ghost predicate SlotDomain(slots: set<Slot>) {
    && (forall s :: s in slots ==> '\n' !in s.key)
    && (forall s, s' :: s in slots && s' in slots && s.namespace == s'.namespace ==> Separable(s.key, s'.key))
  }

  /** Every file is a non-empty list of settings with at most one line per key. */
  ghost predicate Tidy(book: Book, slots: set<Slot>) {
    forall p :: p in book ==> book[p] != [] && Distinct(book[p]) && KeysIn(book[p], KeysAt(slots, p))
  }

  ghost predicate Agrees(book: Book, slots: set<Slot>, m: map<Slot, string>) {
    && m.Keys <= slots
    && (forall s :: s in slots ==> Find(book, s) == if s in m then Some(m[s]) else None)
  }

  // A file without settings is removed.
  function Put(book: Book, path: string, es: seq<Entry>): Book {
    if es == [] then book - {path} else book[path := es]
  }

  function SetBook(book: Book, slot: Slot, value: string): Book {
    var path := FilePath(slot.namespace);
    Put(book, path, SetEntries(EntriesAt(book, path), slot.key, value))
  }

  function DeleteBook(book: Book, slot: Slot): Book {
    var path := FilePath(slot.namespace);
    Put(book, path, DeleteEntries(EntriesAt(book, path), slot.key))
  }

  lemma DomainOfFile(slots: set<Slot>, path: string)
    requires SlotDomain(slots)
    ensures KeyDomain(KeysAt(slots, path))
  {
    forall k, k' | k in KeysAt(slots, path) && k' in KeysAt(slots, path)
      ensures Separable(k, k')
    {
      var s :| s in slots && FilePath(s.namespace) == path && s.key == k;
      var s' :| s' in slots && FilePath(s'.namespace) == path && s'.key == k';
      PathsAreDistinct(s.namespace, s'.namespace);
    }
  }

  ghost predicate Updates(es: seq<Entry>, es': seq<Entry>, key: string, value: Option<string>) {
    forall k :: Lookup(es', k) == if k == key then value else Lookup(es, k)
  }

  function PutMap(m: map<Slot, string>, slot: Slot, value: Option<string>): map<Slot, string> {
    match value
    case Some(v) => m[slot := v]
    case None => m - {slot}
  }

  /** Updating one key of one file updates that slot and no other. */
  lemma PutUpdatesOneSlot(
      book: Book, slots: set<Slot>, m: map<Slot, string>, slot: Slot, es: seq<Entry>, value: Option<string>)
    requires Tidy(book, slots) && Agrees(book, slots, m) && slot in slots
    requires Distinct(es) && KeysIn(es, KeysAt(slots, FilePath(slot.namespace)))
    requires Updates(EntriesAt(book, FilePath(slot.namespace)), es, slot.key, value)
    ensures Tidy(Put(book, FilePath(slot.namespace), es), slots)
    ensures Agrees(Put(book, FilePath(slot.namespace), es), slots, PutMap(m, slot, value))
  {
    hide FilePath, KeysAt, Distinct;
    var path := FilePath(slot.namespace);
    var put := Put(book, path, es);
    forall s | s in slots
      ensures Find(put, s) == if s == slot then value else Find(book, s)
    {
      PathsAreDistinct(s.namespace, slot.namespace);
      assert EntriesAt(put, path) == es;
    }
  }

  lemma PrintedPut(book: Book, path: string, es: seq<Entry>)
    ensures Printed(Put(book, path, es)) ==
      if es == [] then Printed(book) - {path} else Printed(book)[path := Print(es)]
  {
    hide Print;
  }

  lemma PrintsNothingIff(es: seq<Entry>)
    ensures Print(es) == "" <==> es == []
  {
  }

  lemma EntriesAreInFile(book: Book, slots: set<Slot>, slot: Slot)
    requires SlotDomain(slots) && Tidy(book, slots) && slot in slots
    ensures var keys, es := KeysAt(slots, FilePath(slot.namespace)), EntriesAt(book, FilePath(slot.namespace));
      KeyDomain(keys) && slot.key in keys && KeysIn(es, keys) && Distinct(es)
  {
    DomainOfFile(slots, FilePath(slot.namespace));
  }

  lemma SetRefines(book: Book, slots: set<Slot>, m: map<Slot, string>, slot: Slot, value: string)
    requires SlotDomain(slots) && Tidy(book, slots) && Agrees(book, slots, m) && slot in slots
    ensures SetFile(Printed(book), FilePath(slot.namespace), slot.key, value) == Printed(SetBook(book, slot, value))
    ensures Tidy(SetBook(book, slot, value), slots)
    ensures Agrees(SetBook(book, slot, value), slots, m[slot := value])
  {
    hide FilePath, SetText, Print, SetEntries, Tidy, Agrees, KeysAt, KeyDomain, SlotDomain, Line;
    var path := FilePath(slot.namespace);
    var es, keys := EntriesAt(book, path), KeysAt(slots, path);
    EntriesAreInFile(book, slots, slot);
    SetTextPrints(es, keys, slot.key, value);
    SetEntriesSets(es, keys, slot.key, value);
    PutUpdatesOneSlot(book, slots, m, slot, SetEntries(es, slot.key, value), Some(value));
    PrintedPut(book, path, SetEntries(es, slot.key, value));
    PrintsNothingIff(es);
    assert Lookup(SetEntries(es, slot.key, value), slot.key) == Some(value);
  }

  lemma DeleteRefines(book: Book, slots: set<Slot>, m: map<Slot, string>, slot: Slot)
    requires SlotDomain(slots) && Tidy(book, slots) && Agrees(book, slots, m) && slot in slots
    ensures var path := FilePath(slot.namespace);
      && (path in book && HasLine(Print(book[path]), slot.key) <==> slot in m)
      && (slot in m ==> DeleteInFile(Printed(book), path, slot.key) == Printed(DeleteBook(book, slot)))
    ensures Tidy(DeleteBook(book, slot), slots)
    ensures Agrees(DeleteBook(book, slot), slots, m - {slot})
  {
    var path := FilePath(slot.namespace);
    var es, keys := EntriesAt(book, path), KeysAt(slots, path);
    assert Find(book, slot).Some? <==> slot in m;
    hide FilePath, DeleteText, Print, DeleteEntries, Tidy, Agrees, KeysAt, KeyDomain, SlotDomain, HasLine;
    EntriesAreInFile(book, slots, slot);
    DeleteTextPrints(es, keys, slot.key);
    DeleteEntriesDeletes(es, keys, slot.key);
    PutUpdatesOneSlot(book, slots, m, slot, DeleteEntries(es, slot.key), None);
    PrintedPut(book, path, DeleteEntries(es, slot.key));
    PrintsNothingIff(DeleteEntries(es, slot.key));
  }

  lemma GetRefines(book: Book, slots: set<Slot>, m: map<Slot, string>, slot: Slot)
    requires SlotDomain(slots) && Tidy(book, slots) && Agrees(book, slots, m) && slot in slots
    ensures var path := FilePath(slot.namespace);
      (if path in book then GetText(Print(book[path]), slot.key) else None)
        == if slot in m then Some(Escape(m[slot])) else None
  {
    var path := FilePath(slot.namespace);
    var keys := KeysAt(slots, path);
    assert slot.key in keys;
    DomainOfFile(slots, path);
    GetTextFinds(EntriesAt(book, path), keys, slot.key);
  }

  // ---------- The files refine the map ----------

  lemma StepRefines(book: Book, slots: set<Slot>, m: map<Slot, string>, limit: nat, op: Op, writeOk: bool)
      returns (next: Book)
    requires SlotDomain(slots) && Tidy(book, slots) && Agrees(book, slots, m) && ParseKey(op.key) in slots
    ensures var (m', result) := MapStep(m, limit, op, writeOk);
      && Step(Printed(book), limit, op, writeOk) == (Printed(next), result)
      && Tidy(next, slots) && Agrees(next, slots, m')
  {
    hide FilePath, SetFile, DeleteInFile, SetBook, DeleteBook, Tidy, Agrees, SlotDomain, Shown, Answer;
    hide HasLine, GetText, ParseKey;
    var slot := ParseKey(op.key);
    var (m', result) := MapStep(m, limit, op, writeOk);
    next := book;
    match op
    case Set(key, value) =>
      if result.Done? {
        SetRefines(book, slots, m, slot, value);
        next := SetBook(book, slot, value);
      }
    case Get(key, maxLen) =>
      GetRefines(book, slots, m, slot);
      if slot in m && 0 < limit && 0 < maxLen {
        ShownIsAnswer(m[slot], limit, maxLen);
      }
    case Delete(key) =>
      DeleteRefines(book, slots, m, slot);
      if result.Done? {
        next := DeleteBook(book, slot);
      }
  }

  ghost predicate OpsIn(run: seq<Event>, slots: set<Slot>) {
    forall i :: 0 <= i < |run| ==> ParseKey(run[i].op.key) in slots
  }

  lemma {:induction false} RunRefines(book: Book, slots: set<Slot>, m: map<Slot, string>, limit: nat, run: seq<Event>)
      returns (last: Book)
    requires SlotDomain(slots) && Tidy(book, slots) && Agrees(book, slots, m) && OpsIn(run, slots)
    ensures Run(Printed(book), limit, run) == (Printed(last), MapRun(m, limit, run).1)
    ensures Tidy(last, slots) && Agrees(last, slots, MapRun(m, limit, run).0)
    decreases |run|
  {
    last := book;
    if run != [] {
      hide Step, MapStep, Printed, Tidy, Agrees, SlotDomain;
      var next := StepRefines(book, slots, m, limit, run[0].op, run[0].writeOk);
      last := RunRefines(next, slots, MapStep(m, limit, run[0].op, run[0].writeOk).0, limit, run[1..]);
    }
  }

  /** From an empty card, over every run of sets, gets and deletes on a domain of separable
      keys, with file writes failing at will: every call returns what it would return on a
      finite map, and every file stays a list of lines with at most one per key. */
  lemma CardIsAMap(slots: set<Slot>, limit: nat, run: seq<Event>)
    requires SlotDomain(slots) && OpsIn(run, slots)
    ensures Run(map[], limit, run).1 == MapRun(map[], limit, run).1
    ensures exists book ::
      && Run(map[], limit, run).0 == Printed(book)
      && Tidy(book, slots) && Agrees(book, slots, MapRun(map[], limit, run).0)
  {
    var book: Book := map[];
    assert Printed(book) == map[];
    assert Tidy(book, slots) && Agrees(book, slots, map[]);
    var last := RunRefines(book, slots, map[], limit, run);
  }

  /** From an empty card, the first delete of a key of 40 characters leaves buffers of 32. */
  lemma LongDeleteOverruns(key: string)
    requires |key| == 40 && '/' !in key
    ensures Run(map[], 32, [Event(Delete(key), true)]).1 == [Overrun]
  {
    assert AfterLastSlash(key) == 0;
    assert ParseKey(key) == Slot("", key);
    hide ParseKey, FilePath;
  }

  predicate SurvivesCut(value: string, limit: nat, maxLen: nat) {
    && |value| < maxLen
    && (|Escape(value)| < limit || (|Escape(value)| == limit && EndsInBackslash(value)))
  }

  lemma ShownWholeIff(value: string, limit: nat, maxLen: nat)
    requires 0 < limit && 0 < maxLen
    ensures Shown(Escape(value), limit, maxLen) == value <==> SurvivesCut(value, limit, maxLen)
  {
    hide Unescape, Escape, EndsInBackslash;
    CutUnescapeIff(value, limit - 1);
  }

  lemma MapGetAfterSet(m: map<Slot, string>, limit: nat, key: string, value: string, maxLen: nat)
    requires 0 < maxLen && MapStep(m, limit, Set(key, value), true).1 == Done
    ensures MapStep(MapStep(m, limit, Set(key, value), true).0, limit, Get(key, maxLen), true).1
      == Value(Answer(value, limit, maxLen))
  {
    hide Answer, FilePath, ParseKey;
  }

  /** Reading a setting right after storing it gives the value back exactly when its escaped
      form fits the store's limit (short of a final backslash) and the caller's buffer holds
      the value. */
  lemma GetAfterSetIff(
      book: Book, slots: set<Slot>, m: map<Slot, string>, limit: nat, key: string, value: string, maxLen: nat)
    requires SlotDomain(slots) && Tidy(book, slots) && Agrees(book, slots, m) && ParseKey(key) in slots
    requires Step(Printed(book), limit, Set(key, value), true).1 == Done && 0 < limit && 0 < maxLen
    ensures var stored := Step(Printed(book), limit, Set(key, value), true).0;
      (Step(stored, limit, Get(key, maxLen), true).1 == Value(value))
      == SurvivesCut(value, limit, maxLen)
  {
    hide Step, MapStep, FilePath, ParseKey, Tidy, Agrees, SlotDomain, Printed, Shown, Answer, SurvivesCut, Escape;
    var next := StepRefines(book, slots, m, limit, Set(key, value), true);
    var m' := MapStep(m, limit, Set(key, value), true).0;
    var last := StepRefines(next, slots, m', limit, Get(key, maxLen), true);
    MapGetAfterSet(m, limit, key, value, maxLen);
    ShownIsAnswer(value, limit, maxLen);
    ShownWholeIff(value, limit, maxLen);
  }

  // ---------- What a get returns, in a run ----------

  /** The value a run has stored last in a slot and not deleted since, by the replies given. */
  function StoredValue(run: seq<Event>, results: seq<Result>, slot: Slot): Option<string>
    requires |results| == |run|
    decreases |run|
  {
    if run == [] then None else
    var n := |run| - 1;
    var op := run[n].op;
    if results[n] == Done && op.Set? && ParseKey(op.key) == slot then Some(op.value)
    else if results[n] == Done && op.Delete? && ParseKey(op.key) == slot then None
    else StoredValue(run[..n], results[..n], slot)
  }

  lemma {:induction false} MapRunOneMore(m: map<Slot, string>, limit: nat, run: seq<Event>, e: Event)
    ensures var (before, results) := MapRun(m, limit, run);
      var (after, result) := MapStep(before, limit, e.op, e.writeOk);
      |results| == |run| && MapRun(m, limit, run + [e]) == (after, results + [result])
    decreases |run|
  {
    hide MapStep;
    if run == [] {
      assert run + [e] == [e] && [e][1..] == [];
      var (next, result) := MapStep(m, limit, e.op, e.writeOk);
      assert MapRun(next, limit, []) == (next, []) && [result] + [] == [] + [result];
    } else {
      var next := MapStep(m, limit, run[0].op, run[0].writeOk).0;
      MapRunOneMore(next, limit, run[1..], e);
      assert (run + [e])[1..] == run[1..] + [e] && (run + [e])[0] == run[0];
      var result := MapStep(m, limit, run[0].op, run[0].writeOk).1;
      var (last, results) := MapRun(next, limit, run[1..]);
      var final := MapStep(last, limit, e.op, e.writeOk).1;
      assert [result] + (results + [final]) == [result] + results + [final];
    }
  }

  lemma MapStepStores(m: map<Slot, string>, limit: nat, op: Op, writeOk: bool, slot: Slot)
    ensures var (m', result) := MapStep(m, limit, op, writeOk);
      (if slot in m' then Some(m'[slot]) else None) ==
        if result == Done && op.Set? && ParseKey(op.key) == slot then Some(op.value)
        else if result == Done && op.Delete? && ParseKey(op.key) == slot then None
        else if slot in m then Some(m[slot]) else None
  {
    hide ParseKey, FilePath, Answer;
  }

  lemma {:induction false} MapHoldsStored(limit: nat, run: seq<Event>, slot: Slot)
    ensures var (m, results) := MapRun(map[], limit, run);
      |results| == |run| && StoredValue(run, results, slot) == if slot in m then Some(m[slot]) else None
    decreases |run|
  {
    if run != [] {
      var n := |run| - 1;
      MapHoldsStored(limit, run[..n], slot);
      MapRunOneMore(map[], limit, run[..n], run[n]);
      assert run[..n] + [run[n]] == run;
      var (before, results) := MapRun(map[], limit, run[..n]);
      MapStepStores(before, limit, run[n].op, run[n].writeOk, slot);
      hide MapStep, MapRun, ParseKey;
      assert MapRun(map[], limit, run).1[..n] == results;
    }
  }

  // The first k characters, and what is left of the next one's escaped form.
  function Shortened(value: string, limit: nat, k: nat): string
    requires k <= |value|
  {
    value[..k] + if k < |value| && |Escape(value[..k])| + 1 < limit then "\\" else ""
  }

  /** The store's limit leaves the first k characters, whose escaped forms fit it, and of the next
      one a lone backslash at most; the text is what the caller's buffer holds of that. */
  ghost predicate ShowsFirst(value: string, limit: nat, maxLen: nat, k: nat, text: string)
    requires k <= |value| && 0 < maxLen
  {
    && |Escape(value[..k])| < limit
    && (k < |value| ==> |Escape(value[..k + 1])| >= limit)
    && text == Prefix(Shortened(value, limit, k), maxLen - 1)
  }

  ghost predicate Shows(value: string, limit: nat, maxLen: nat, text: string)
    requires 0 < maxLen
  {
    exists k :: 0 <= k <= |value| && ShowsFirst(value, limit, maxLen, k, text)
  }

  lemma AnswerShows(value: string, limit: nat, maxLen: nat)
    requires 0 < limit && 0 < maxLen
    ensures Shows(value, limit, maxLen, Answer(value, limit, maxLen))
  {
    assert Answer(value, limit, maxLen) == Prefix(ReadBack(value, limit - 1), maxLen - 1);
    hide Escape, ReadBack, Answer, Prefix;
    var k := ReadBackIsLongest(value, limit - 1);
    assert ReadBack(value, limit - 1) == Shortened(value, limit, k);
    hide Shortened;
    assert ShowsFirst(value, limit, maxLen, k, Answer(value, limit, maxLen));
  }

  lemma AnswerIsWhole(value: string, limit: nat, maxLen: nat)
    requires 0 < limit && 0 < maxLen && |Escape(value)| < limit
    ensures Answer(value, limit, maxLen) == value[..if |value| < maxLen then |value| else maxLen - 1]
  {
    CutReadsBack(value, limit - 1);
    UnescapeUndoesEscape(value);
    hide Unescape, Escape, ReadBack;
    assert ReadBack(value, limit - 1) == value;
    assert value[..|value|] == value;
  }

  /** In every run from an empty card a get answers with what was stored last and not deleted
      since: with a beginning of it as long as store and buffer allow, whole if they allow that. */
  lemma GetShowsStored(slots: set<Slot>, limit: nat, run: seq<Event>, key: string, maxLen: nat, writeOk: bool)
    requires SlotDomain(slots) && OpsIn(run, slots) && ParseKey(key) in slots
    ensures var results := Run(map[], limit, run).1;
      var replies := Run(map[], limit, run + [Event(Get(key, maxLen), writeOk)]).1;
      && |results| == |run| && |replies| == |run| + 1 && replies[..|run|] == results
      && (0 < maxLen && |key| < limit && |FilePath(ParseKey(key).namespace)| < limit ==>
            match StoredValue(run, results, ParseKey(key))
            case None => replies[|run|] == Failed(NoEntry)
            case Some(value) =>
              && replies[|run|].Value? && Shows(value, limit, maxLen, replies[|run|].value)
              && (|Escape(value)| < limit ==>
                    replies[|run|].value == value[..if |value| < maxLen then |value| else maxLen - 1]))
  {
    var get := Event(Get(key, maxLen), writeOk);
    assert OpsIn(run + [get], slots);
    CardIsAMap(slots, limit, run);
    CardIsAMap(slots, limit, run + [get]);
    MapRunOneMore(map[], limit, run, get);
    MapHoldsStored(limit, run, ParseKey(key));
    var m := MapRun(map[], limit, run).0;
    hide Run, MapRun, FilePath, StoredValue, Shows, Answer, OpsIn, SlotDomain, Tidy, Agrees;
    if 0 < maxLen && 0 < limit && ParseKey(key) in m {
      AnswerShows(m[ParseKey(key)], limit, maxLen);
      if |Escape(m[ParseKey(key)])| < limit {
        AnswerIsWhole(m[ParseKey(key)], limit, maxLen);
      }
    }
    hide ParseKey, Escape;
  }
}
