/** The text format of the SD-card settings: one `key-escapedvalue` line per setting.
    Texts, keys and values are C strings, so no character of them is NUL. */
module SettingsText {
  import opened Basics

  // ---------- Escaping ----------

  function EscapeChar(c: char): (e: string)
    ensures 1 <= |e| <= 2
  {
    if c == '\n' then "\\n" else if c == '\r' then "\\r" else if c == '\\' then "\\\\" else [c]
  }

  function Escape(value: string): string {
    if value == "" then "" else EscapeChar(value[0]) + Escape(value[1..])
  }

  function UnescapeChar(c: char): char {
    if c == 'n' then '\n' else if c == 'r' then '\r' else c
  }

  /** A backslash takes the next character with it; one at the very end stands for itself. */
  function Unescape(text: string): string {
    if text == "" then ""
    else if text[0] == '\\' && |text| > 1 then [UnescapeChar(text[1])] + Unescape(text[2..])
    else [text[0]] + Unescape(text[1..])
  }

  lemma UnescapeOne(c: char, rest: string)
    ensures Unescape(EscapeChar(c) + rest) == [c] + Unescape(rest)
  {
    var e := EscapeChar(c);
    var text := e + rest;
    assert text[|e|..] == rest;
    assert |e| == 2 ==> text[0] == '\\' && text[1] == e[1];
  }

  /** Reading back what was written: for every value. */
  lemma {:induction false} UnescapeUndoesEscape(value: string)
    ensures Unescape(Escape(value)) == value
  {
    if value != "" {
      UnescapeOne(value[0], Escape(value[1..]));
      UnescapeUndoesEscape(value[1..]);
    }
  }

  predicate OneLine(text: string) {
    '\n' !in text && '\r' !in text
  }

  lemma {:induction false} EscapedIsOneLine(value: string)
    ensures OneLine(Escape(value))
    ensures |value| <= |Escape(value)| <= 2 * |value|
  {
    if value != "" {
      EscapedIsOneLine(value[1..]);
      assert OneLine(EscapeChar(value[0]));
    }
  }

  function Prefix(text: string, n: nat): string {
    if n < |text| then text[..n] else text
  }

  predicate EndsInBackslash(value: string) {
    value != "" && value[|value| - 1] == '\\'
  }

  lemma PrefixOfConcat(a: string, b: string, n: nat)
    requires |a| <= n
    ensures Prefix(a + b, n) == a + Prefix(b, n - |a|)
  {
  }

  lemma CutAfterOne(value: string, n: nat)
    requires value != "" && |EscapeChar(value[0])| <= n
    ensures Unescape(Prefix(Escape(value), n))
      == [value[0]] + Unescape(Prefix(Escape(value[1..]), n - |EscapeChar(value[0])|))
  {
    var head, tail := EscapeChar(value[0]), Escape(value[1..]);
    hide Unescape, EscapeChar, Prefix;
    PrefixOfConcat(head, tail, n);
    UnescapeOne(value[0], Prefix(tail, n - |head|));
  }

  lemma ConsEqual(c: char, u: string, value: string)
    requires value != "" && value[0] == c
    ensures [c] + u == value <==> u == value[1..]
    ensures EndsInBackslash(value) <==> if |value| == 1 then c == '\\' else EndsInBackslash(value[1..])
  {
    assert ([c] + u)[1..] == u;
    assert value == [c] + value[1..];
  }

  /** A value cut off in its escaped form comes back whole exactly when nothing was cut, or
      when only the second half of a final escaped backslash was. */
  lemma {:induction false} CutUnescapeIff(value: string, n: nat)
    ensures Unescape(Prefix(Escape(value), n)) == value <==>
      |Escape(value)| <= n || (|Escape(value)| == n + 1 && EndsInBackslash(value))
    ensures |Unescape(Prefix(Escape(value), n))| <= |value|
  {
    var e := Escape(value);
    if value == "" || |e| <= n {
      UnescapeUndoesEscape(value);
    } else if |EscapeChar(value[0])| <= n {
      hide Unescape, Prefix, EndsInBackslash;
      CutAfterOne(value, n);
      CutUnescapeIff(value[1..], n - |EscapeChar(value[0])|);
      ConsEqual(value[0], Unescape(Prefix(Escape(value[1..]), n - |EscapeChar(value[0])|)), value);
      EscapedIsOneLine(value[1..]);
    } else if n == 0 {
      EscapedIsOneLine(value[1..]);
      assert Prefix(e, n) == "";
    } else {
      EscapedIsOneLine(value[1..]);
      assert Prefix(e, n) == "\\";
      assert Unescape("\\") == "\\";
    }
  }

  predicate Special(c: char) {
    c == '\n' || c == '\r' || c == '\\'
  }

  lemma {:induction false} EscapeJoins(a: string, b: string)
    ensures Escape(a + b) == Escape(a) + Escape(b)
  {
    if a == "" {
      assert a + b == b;
    } else {
      assert (a + b)[1..] == a[1..] + b;
      EscapeJoins(a[1..], b);
    }
  }

  /** Escaping goes character by character: a backslash before the letters n and r stands for the
      two line breaks, one before a backslash for itself, and all else is left as it is. */
  lemma EscapeIsByCharacter(a: string, c: char, b: string)
    ensures Escape(a + [c] + b) == Escape(a) + Escape([c]) + Escape(b)
    ensures Escape("\n") == "\\n" && Escape("\r") == "\\r" && Escape("\\") == "\\\\" && Escape("") == ""
    ensures !Special(c) ==> Escape([c]) == [c]
  {
    EscapeJoins(a + [c], b);
    EscapeJoins(a, [c]);
    EscapeOfOne(c);
    EscapeOfOne('\n');
    EscapeOfOne('\r');
    EscapeOfOne('\\');
    assert "\n" == ['\n'] && "\r" == ['\r'] && "\\" == ['\\'] && Escape("") == "";
    hide Escape;
  }

  lemma EscapeOfOne(c: char)
    ensures Escape([c]) == EscapeChar(c)
  {
    assert [c][1..] == "";
  }

  /** What is read back through so much room for the escaped text: the characters whose escaped
      forms fit, and a lone backslash where one is cut in half. */
  function ReadBack(value: string, room: nat): string {
    if value == "" || room == 0 then ""
    else if !Special(value[0]) then [value[0]] + ReadBack(value[1..], room - 1)
    else if room == 1 then "\\"
    else [value[0]] + ReadBack(value[1..], room - 2)
  }

  lemma {:induction false} CutReadsBack(value: string, room: nat)
    ensures Unescape(Prefix(Escape(value), room)) == ReadBack(value, room)
    decreases |value|
  {
    if value == "" || room == 0 {
      assert Prefix(Escape(value), room) == "";
    } else if room == 1 && Special(value[0]) {
      EscapedIsOneLine(value[1..]);
      assert Prefix(Escape(value), 1) == "\\";
      assert Unescape("\\") == "\\";
    } else {
      hide Unescape, Prefix;
      CutAfterOne(value, room);
      CutReadsBack(value[1..], room - |EscapeChar(value[0])|);
    }
  }

  /** That is the longest beginning whose escaped form fits, and the backslash only if there is
      room for one more character. */
  lemma {:induction false} ReadBackIsLongest(value: string, room: nat) returns (k: nat)
    ensures k <= |value| && |Escape(value[..k])| <= room
    ensures k < |value| ==> |Escape(value[..k + 1])| > room
    ensures ReadBack(value, room) == value[..k] + if k < |value| && |Escape(value[..k])| < room then "\\" else ""
    decreases |value|
  {
    k := 0;
    if value == "" {
      return;
    }
    EscapeOfFirst(value, 0);
    if |EscapeChar(value[0])| <= room {
      assert ReadBack(value, room) == [value[0]] + ReadBack(value[1..], room - |EscapeChar(value[0])|);
      hide ReadBack, EscapeChar, Escape;
      k := ReadBackIsLongest(value[1..], room - |EscapeChar(value[0])|);
      OneMoreFits(value, room, k);
      k := k + 1;
    }
  }

  lemma OneMoreFits(value: string, room: nat, k: nat)
    requires value != "" && k < |value| && |EscapeChar(value[0])| <= room
    ensures |Escape(value[..k + 1])| == |EscapeChar(value[0])| + |Escape(value[1..][..k])|
    ensures k + 1 < |value| ==> |Escape(value[..k + 2])| == |EscapeChar(value[0])| + |Escape(value[1..][..k + 1])|
    ensures [value[0]] + value[1..][..k] == value[..k + 1]
  {
    EscapeOfFirst(value, k);
    if k + 1 < |value| {
      EscapeOfFirst(value, k + 1);
    }
    hide Escape;
  }

  lemma EscapeOfFirst(value: string, k: nat)
    requires k < |value|
    ensures |Escape(value[..k + 1])| == |EscapeChar(value[0])| + |Escape(value[1..][..k])|
  {
    assert value[..k + 1][1..] == value[1..][..k];
  }

  // ---------- Lines ----------

  // The index of the first newline, or the length of the text.
  function NewlineAt(text: string): (n: nat)
    ensures n <= |text|
    ensures forall i :: 0 <= i < n ==> text[i] != '\n'
    ensures n < |text| ==> text[n] == '\n'
  {
    if text == "" || text[0] == '\n' then 0 else 1 + NewlineAt(text[1..])
  }

  // The length of the first line, its newline included.
  function LineLength(text: string): (n: nat)
    ensures n <= |text|
    ensures text != "" ==> 0 < n
  {
    if NewlineAt(text) < |text| then NewlineAt(text) + 1 else |text|
  }

  function Search(key: string): string { key + "-" }

  /** Setting a key: the first line that starts with `key-` becomes the new line, every other
      line is copied; without such a line the new one is appended. */
  function SetText(text: string, key: string, line: string, found: bool): string
    decreases |text|
  {
    if text == "" then (if found then "" else line) else
    var n := LineLength(text);
    if !found && Search(key) <= text
    then line + SetText(text[n..], key, line, true)
    else text[..n] + SetText(text[n..], key, line, found)
  }

  /** Getting a key: what follows `key-` in the first line that starts with it. */
  function GetText(text: string, key: string): Option<string>
    decreases |text|
  {
    if text == "" then None else
    if Search(key) <= text then
      var value := text[|Search(key)|..];
      Some(value[..NewlineAt(value)])
    else
      GetText(text[LineLength(text)..], key)
  }

  /** Deleting a key drops every line that starts with `key-`. */
  function DeleteText(text: string, key: string): string
    decreases |text|
  {
    if text == "" then "" else
    var n := LineLength(text);
    if Search(key) <= text then DeleteText(text[n..], key)
    else text[..n] + DeleteText(text[n..], key)
  }

  predicate HasLine(text: string, key: string)
    decreases |text|
  {
    text != "" && (Search(key) <= text || HasLine(text[LineLength(text)..], key))
  }

  // ---------- Settings behind the text ----------

  datatype Entry = Entry(key: string, value: string)

  function Line(e: Entry): (s: string)
    ensures s != ""
  {
    Search(e.key) + Escape(e.value) + "\n"
  }

  function Print(es: seq<Entry>): string {
    if es == [] then "" else Line(es[0]) + Print(es[1..])
  }

  /** Neither key is the other one followed by a dash and more. */
  predicate Separable(k: string, k': string) {
    k != k' ==> !(Search(k) <= k') && !(Search(k') <= k)
  }

  ghost predicate KeysIn(es: seq<Entry>, keys: set<string>) {
    forall i :: 0 <= i < |es| ==> es[i].key in keys
  }

  ghost predicate KeyDomain(keys: set<string>) {
    && (forall k :: k in keys ==> '\n' !in k)
    && (forall k, k' :: k in keys && k' in keys ==> Separable(k, k'))
  }

  lemma DashlessKeysAreADomain(keys: set<string>)
    requires forall k :: k in keys ==> '\n' !in k && '-' !in k
    ensures KeyDomain(keys)
  {
    forall k, k' | k in keys && k' in keys
      ensures Separable(k, k')
    {
      assert '-' in Search(k) && '-' in Search(k');
    }
  }

  function SetEntries(es: seq<Entry>, key: string, value: string): seq<Entry> {
    if es == [] then [Entry(key, value)]
    else if es[0].key == key then [Entry(key, value)] + es[1..]
    else [es[0]] + SetEntries(es[1..], key, value)
  }

  function DeleteEntries(es: seq<Entry>, key: string): seq<Entry> {
    if es == [] then []
    else if es[0].key == key then DeleteEntries(es[1..], key)
    else [es[0]] + DeleteEntries(es[1..], key)
  }

  function Lookup(es: seq<Entry>, key: string): Option<string> {
    if es == [] then None
    else if es[0].key == key then Some(es[0].value)
    else Lookup(es[1..], key)
  }

  /** At most one entry per key. */
  predicate Distinct(es: seq<Entry>) {
    es == [] || (Lookup(es[1..], es[0].key).None? && Distinct(es[1..]))
  }

  // ---------- The text operations on printed settings ----------

  lemma FirstNewline(a: string, b: string)
    requires '\n' !in a
    ensures NewlineAt(a + "\n" + b) == |a|
  {
    var text := a + "\n" + b;
    assert text[|a|] == '\n';
    assert forall i :: 0 <= i < |a| ==> text[i] == a[i];
  }

  lemma FirstLineIs(e: Entry, rest: string)
    requires '\n' !in e.key
    ensures LineLength(Line(e) + rest) == |Line(e)|
    ensures (Line(e) + rest)[..|Line(e)|] == Line(e)
    ensures (Line(e) + rest)[|Line(e)|..] == rest
  {
    EscapedIsOneLine(e.value);
    var body := Search(e.key) + Escape(e.value);
    assert Line(e) + rest == body + "\n" + rest;
    FirstNewline(body, rest);
  }

  /** Between separable keys the prefix test is a key test. */
  lemma MatchesOwnLine(key: string, e: Entry, rest: string)
    requires '\n' !in key && '\n' !in e.key && Separable(key, e.key)
    ensures Search(key) <= Line(e) + rest <==> key == e.key
  {
    var text := Line(e) + rest;
    assert text == Search(e.key) + (Escape(e.value) + "\n" + rest);
    assert text[..|e.key| + 1] == Search(e.key);
    if |key| < |e.key| {
      assert text[..|key| + 1] == e.key[..|key| + 1];
    } else if |key| > |e.key| {
      assert Search(key)[..|e.key| + 1] == key[..|e.key| + 1];
    } else {
      assert text[..|key|] == e.key && Search(key)[..|key|] == key;
    }
  }

  lemma {:induction false} CopyAfterFound(es: seq<Entry>, keys: set<string>, key: string, line: string)
    requires KeyDomain(keys) && KeysIn(es, keys)
    ensures SetText(Print(es), key, line, true) == Print(es)
  {
    if es != [] {
      FirstLineIs(es[0], Print(es[1..]));
      CopyAfterFound(es[1..], keys, key, line);
    }
  }

  lemma {:induction false} SetTextPrints(es: seq<Entry>, keys: set<string>, key: string, value: string)
    requires KeyDomain(keys) && KeysIn(es, keys) && key in keys
    ensures SetText(Print(es), key, Line(Entry(key, value)), false) == Print(SetEntries(es, key, value))
  {
    var line := Line(Entry(key, value));
    if es == [] {
      assert Print([Entry(key, value)]) == line + Print([]);
    } else {
      var rest := es[1..];
      FirstLineIs(es[0], Print(rest));
      MatchesOwnLine(key, es[0], Print(rest));
      if es[0].key == key {
        CopyAfterFound(rest, keys, key, line);
        assert ([Entry(key, value)] + rest)[1..] == rest;
      } else {
        SetTextPrints(rest, keys, key, value);
        assert ([es[0]] + SetEntries(rest, key, value))[1..] == SetEntries(rest, key, value);
      }
    }
  }

  lemma ValueOfOwnLine(e: Entry, rest: string)
    ensures GetText(Line(e) + rest, e.key) == Some(Escape(e.value))
  {
    var text := Line(e) + rest;
    var value := Escape(e.value) + "\n" + rest;
    EscapedIsOneLine(e.value);
    FirstNewline(Escape(e.value), rest);
    assert text == Search(e.key) + value;
    assert text[|Search(e.key)|..] == value;
    assert value[..|Escape(e.value)|] == Escape(e.value);
  }

  lemma {:induction false} GetTextFinds(es: seq<Entry>, keys: set<string>, key: string)
    requires KeyDomain(keys) && KeysIn(es, keys) && key in keys
    ensures GetText(Print(es), key) ==
      if Lookup(es, key).Some? then Some(Escape(Lookup(es, key).value)) else None
  {
    if es != [] {
      var rest := es[1..];
      FirstLineIs(es[0], Print(rest));
      MatchesOwnLine(key, es[0], Print(rest));
      if es[0].key == key {
        ValueOfOwnLine(es[0], Print(rest));
      } else {
        GetTextFinds(rest, keys, key);
      }
    }
  }

  lemma {:induction false} DeleteTextPrints(es: seq<Entry>, keys: set<string>, key: string)
    requires KeyDomain(keys) && KeysIn(es, keys) && key in keys
    ensures DeleteText(Print(es), key) == Print(DeleteEntries(es, key))
    ensures HasLine(Print(es), key) <==> Lookup(es, key).Some?
  {
    if es != [] {
      var rest := es[1..];
      FirstLineIs(es[0], Print(rest));
      MatchesOwnLine(key, es[0], Print(rest));
      DeleteTextPrints(rest, keys, key);
      if es[0].key != key {
        assert ([es[0]] + DeleteEntries(rest, key))[1..] == DeleteEntries(rest, key);
      }
    }
  }

  // ---------- The entry operations are map operations ----------

  lemma {:induction false} SetEntriesSets(es: seq<Entry>, keys: set<string>, key: string, value: string)
    requires KeysIn(es, keys) && key in keys && Distinct(es)
    ensures KeysIn(SetEntries(es, key, value), keys) && Distinct(SetEntries(es, key, value))
    ensures forall k :: Lookup(SetEntries(es, key, value), k) == if k == key then Some(value) else Lookup(es, k)
  {
    if es != [] && es[0].key != key {
      SetEntriesSets(es[1..], keys, key, value);
    }
  }

  lemma {:induction false} DeleteEntriesDeletes(es: seq<Entry>, keys: set<string>, key: string)
    requires KeysIn(es, keys) && Distinct(es)
    ensures KeysIn(DeleteEntries(es, key), keys) && Distinct(DeleteEntries(es, key))
    ensures forall k :: Lookup(DeleteEntries(es, key), k) == if k == key then None else Lookup(es, k)
  {
    if es != [] {
      DeleteEntriesDeletes(es[1..], keys, key);
    }
  }

  // ---------- Which keys may share a file ----------

  // The text of a file in which one setting is stored and then another.
  function TwoSets(k: string, v: string, k': string, v': string): string {
    SetText(Line(Entry(k, v)), k', Line(Entry(k', v')), false)
  }

  lemma PrintOne(e: Entry)
    ensures Print([e]) == Line(e)
  {
    assert Print([e]) == Line(e) + Print([]);
  }

  lemma SeparableKeysCoexist(k: string, v: string, k': string, v': string)
    requires k != k' && '\n' !in k && '\n' !in k' && Separable(k, k')
    ensures GetText(TwoSets(k, v, k', v'), k) == Some(Escape(v))
    ensures GetText(TwoSets(k, v, k', v'), k') == Some(Escape(v'))
  {
    var keys, es := {k, k'}, [Entry(k, v)];
    PrintOne(es[0]);
    SetTextPrints(es, keys, k', v');
    SetEntriesSets(es, keys, k', v');
    GetTextFinds(SetEntries(es, k', v'), keys, k);
    GetTextFinds(SetEntries(es, k', v'), keys, k');
  }

  /** When a key is another one plus a dash and more, setting the shorter key replaces the
      longer one's line. */
  lemma ShorterKeyOverwrites(k: string, k': string, v: string)
    requires '\n' !in k && '\n' !in k' && Search(k) <= k'
    ensures GetText(TwoSets(k', v, k, ""), k') == None
  {
    var before, after := Line(Entry(k', v)), Line(Entry(k, ""));
    assert Search(k) <= before by {
      assert before == k' + ("-" + Escape(v) + "\n");
    }
    assert before + "" == before;
    FirstLineIs(Entry(k', v), "");
    assert TwoSets(k', v, k, "") == after by {
      assert SetText("", k, after, true) == "";
    }
    assert after == Search(k) + "\n";
    assert after[|after| - 1] == '\n' && |after| <= |Search(k')|;
    assert !(Search(k') <= after);
    assert after + "" == after;
    FirstLineIs(Entry(k, ""), "");
  }

  /** Two keys keep out of each other's way, for all values and in both orders, exactly when
      they are separable. */
  lemma CoexistIffSeparable(k: string, k': string)
    requires k != k' && '\n' !in k && '\n' !in k'
    ensures Separable(k, k') <==>
      forall v, v' ::
        && GetText(TwoSets(k, v, k', v'), k) == Some(Escape(v))
        && GetText(TwoSets(k', v', k, v), k') == Some(Escape(v'))
  {
    if Separable(k, k') {
      forall v, v'
        ensures GetText(TwoSets(k, v, k', v'), k) == Some(Escape(v))
        ensures GetText(TwoSets(k', v', k, v), k') == Some(Escape(v'))
      {
        SeparableKeysCoexist(k, v, k', v');
        SeparableKeysCoexist(k', v', k, v);
      }
    } else if Search(k) <= k' {
      ShorterKeyOverwrites(k, k', "");
      assert GetText(TwoSets(k', "", k, ""), k') == None;
    } else {
      ShorterKeyOverwrites(k', k, "");
      assert GetText(TwoSets(k, "", k', ""), k) == None;
    }
  }
}
