/** The SD-card back end in the form the firmware has it: character buffers filled by pointer
    loops. Every buffer access is in bounds, and each operation is proved against SdSettings. */
module SdCard {
  import opened Basics
  import opened SettingsText
  import opened SdSettings

  // ---------- Prefix facts about the scanned text ----------

  lemma EscapeAppends(a: string, c: char)
    ensures Escape(a + [c]) == Escape(a) + EscapeChar(c)
    decreases |a|
  {
    if a == "" {
      assert Escape([c]) == EscapeChar(c) + Escape("");
    } else {
      hide EscapeChar;
      EscapeAppends(a[1..], c);
      assert (a + [c])[1..] == a[1..] + [c];
      Assoc(EscapeChar(a[0]), Escape(a[1..]), EscapeChar(c));
    }
  }

  method PutEscaped(buffer: array<char>, at: nat, c: char) returns (end: nat)
    requires at + 2 <= buffer.Length
    modifies buffer
    ensures at < end <= at + 2
    ensures buffer[..end] == old(buffer[..at]) + EscapeChar(c)
  {
    if c == '\n' {
      buffer[at], buffer[at + 1] := '\\', 'n';
      end := at + 2;
    } else if c == '\r' {
      buffer[at], buffer[at + 1] := '\\', 'r';
      end := at + 2;
    } else if c == '\\' {
      buffer[at], buffer[at + 1] := '\\', '\\';
      end := at + 2;
    } else {
      buffer[at] := c;
      end := at + 1;
    }
  }

  method EscapeValue(value: string) returns (escaped: array<char>, len: nat)
    ensures fresh(escaped) && len < escaped.Length
    ensures escaped[..len] == Escape(value) && escaped[len] == '\0'
  {
    hide Escape, EscapeChar;
    escaped := new char[2 * |value| + 1];
    len := 0;
    EscapeNothing();
    for src := 0 to |value|
      invariant len <= 2 * src
      invariant escaped[..len] == Escape(value[..src])
    {
      EscapeAppends(value[..src], value[src]);
      assert value[..src + 1] == value[..src] + [value[src]];
      len := PutEscaped(escaped, len, value[src]);
    }
    assert value[..|value|] == value;
    escaped[len] := '\0';
  }

  lemma EscapeNothing()
    ensures Escape("") == ""
  {
  }

  // How many characters of the text the next unescaped one takes.
  function Unit(text: string): nat {
    if |text| > 1 && text[0] == '\\' then 2 else 1
  }

  lemma UnescapeTurn(text: string, src: nat)
    requires src < |text|
    ensures src + Unit(text[src..]) <= |text|
    ensures Unescape(text[src..]) ==
      [if Unit(text[src..]) == 2 then UnescapeChar(text[src + 1]) else text[src]]
      + Unescape(text[src + Unit(text[src..])..])
  {
    var rest := text[src..];
    assert rest[Unit(rest)..] == text[src + Unit(rest)..];
  }

  lemma UnescapeNothing()
    ensures Unescape("") == ""
  {
  }

  method UnescapeValue(text: string) returns (unescaped: array<char>, len: nat)
    ensures fresh(unescaped) && len < unescaped.Length
    ensures unescaped[..len] == Unescape(text) && unescaped[len] == '\0'
  {
    hide Unescape, UnescapeChar;
    unescaped := new char[|text| + 1];
    len := 0;
    var src := 0;
    WholeAndNothing(text);
    while src < |text|
      invariant len <= src <= |text|
      invariant unescaped[..len] + Unescape(text[src..]) == Unescape(text)
    {
      UnescapeTurn(text, src);
      ghost var done, next := unescaped[..len], src + Unit(text[src..]);
      if text[src] == '\\' && src + 1 < |text| {
        src := src + 1;
        unescaped[len] := UnescapeChar(text[src]);
      } else {
        unescaped[len] := text[src];
      }
      Assoc(done, [unescaped[len]], Unescape(text[next..]));
      assert unescaped[..len + 1] == done + [unescaped[len]];
      src, len := src + 1, len + 1;
    }
    UnescapeNothing();
    WholeAndNothing(unescaped[..len]);
    unescaped[len] := '\0';
  }

  // The index of the next newline at or after `from`, as strchr finds it.
  method FindNewline(text: string, from: nat) returns (at: nat)
    requires from <= |text|
    ensures at == from + NewlineAt(text[from..])
  {
    at := from;
    while at < |text| && text[at] != '\n'
      invariant from <= at <= |text|
      invariant at + NewlineAt(text[at..]) == from + NewlineAt(text[from..])
    {
      assert text[at..][1..] == text[at + 1..];
      at := at + 1;
    }
  }

  predicate MatchesAt(text: string, at: nat, search: string) {
    at + |search| <= |text| && text[at..at + |search|] == search
  }

  lemma MatchIsPrefix(text: string, at: nat, search: string)
    requires at <= |text|
    ensures MatchesAt(text, at, search) <==> search <= text[at..]
  {
    if at + |search| <= |text| {
      assert text[at..][..|search|] == text[at..at + |search|];
    }
  }

  // ---------- Copying ----------

  method CopyInto(buffer: array<char>, at: nat, piece: string) returns (end: nat)
    requires at + |piece| <= buffer.Length
    modifies buffer
    ensures end == at + |piece|
    ensures buffer[..end] == old(buffer[..at]) + piece
  {
    forall i | 0 <= i < |piece| { buffer[at + i] := piece[i]; }
    end := at + |piece|;
  }

  // The start of the line after the one at `line`.
  method NextLine(text: string, line: nat) returns (next: nat)
    requires line < |text|
    ensures line < next == line + LineLength(text[line..]) <= |text|
  {
    var newline := FindNewline(text, line);
    next := if newline < |text| then newline + 1 else |text|;
  }

  lemma LineAt(text: string, line: nat)
    requires line < |text|
    ensures var n := LineLength(text[line..]);
      line + n <= |text| && text[line..][n..] == text[line + n..] && text[line..][..n] == text[line..line + n]
  {
    hide LineLength;
  }

  lemma SetTurn(text: string, line: nat, key: string, newLine: string, found: bool)
    requires line < |text|
    ensures var next := line + LineLength(text[line..]);
      SetText(text[line..], key, newLine, found) ==
        if !found && MatchesAt(text, line, Search(key))
        then newLine + SetText(text[next..], key, newLine, true)
        else text[line..next] + SetText(text[next..], key, newLine, found)
  {
    hide LineLength, Search, MatchesAt;
    LineAt(text, line);
    MatchIsPrefix(text, line, Search(key));
  }

  lemma SetEnd(key: string, newLine: string, found: bool)
    ensures SetText("", key, newLine, found) == if found then "" else newLine
  {
  }

  /** The rewriting loop of a set. The buffer holds the old text, the new line and a
      terminator; the loop never leaves it. */
  method RewriteForSet(text: string, key: string, newLine: string) returns (buffer: array<char>, len: nat)
    ensures fresh(buffer) && buffer.Length == |text| + |newLine| + 1
    ensures len < buffer.Length
    ensures buffer[..len] == SetText(text, key, newLine, false)
  {
    hide SetText, LineLength, Search, MatchesAt;
    buffer := new char[|text| + |newLine| + 1];
    len := 0;
    var line, found := 0, false;
    WholeAndNothing(text);
    while line < |text|
      invariant line <= |text|
      invariant len <= line + (if found then |newLine| else 0)
      invariant buffer[..len] + SetText(text[line..], key, newLine, found) == SetText(text, key, newLine, false)
    {
      SetTurn(text, line, key, newLine, found);
      var next := NextLine(text, line);
      ghost var done := buffer[..len];
      if !found && MatchesAt(text, line, Search(key)) {
        Assoc(done, newLine, SetText(text[next..], key, newLine, true));
        len := CopyInto(buffer, len, newLine);
        found := true;
      } else {
        Assoc(done, text[line..next], SetText(text[next..], key, newLine, found));
        len := CopyInto(buffer, len, text[line..next]);
      }
      line := next;
    }
    SetEnd(key, newLine, found);
    WholeAndNothing(buffer[..len]);
    if !found {
      len := CopyInto(buffer, len, newLine);
    }
  }

  lemma DeleteTurn(text: string, line: nat, key: string)
    requires line < |text|
    ensures var next := line + LineLength(text[line..]);
      && next <= |text|
      && DeleteText(text[line..], key) ==
           (if MatchesAt(text, line, Search(key)) then "" else text[line..next]) + DeleteText(text[next..], key)
      && HasLine(text[line..], key) == (MatchesAt(text, line, Search(key)) || HasLine(text[next..], key))
  {
    hide LineLength, Search, MatchesAt;
    LineAt(text, line);
    MatchIsPrefix(text, line, Search(key));
    WholeAndNothing(DeleteText(text[line + LineLength(text[line..])..], key));
  }

  lemma DeleteEnd(key: string)
    ensures DeleteText("", key) == "" && !HasLine("", key)
  {
  }

  /** The rewriting loop of a delete. */
  method RewriteForDelete(text: string, key: string) returns (buffer: array<char>, len: nat, found: bool)
    ensures fresh(buffer) && len < buffer.Length == |text| + 1
    ensures buffer[..len] == DeleteText(text, key)
    ensures found == HasLine(text, key)
  {
    hide DeleteText, HasLine, LineLength, Search, MatchesAt;
    buffer := new char[|text| + 1];
    len, found := 0, false;
    var line := 0;
    WholeAndNothing(text);
    while line < |text|
      invariant len <= line <= |text|
      invariant buffer[..len] + DeleteText(text[line..], key) == DeleteText(text, key)
      invariant (found || HasLine(text[line..], key)) == HasLine(text, key)
    {
      DeleteTurn(text, line, key);
      var next := NextLine(text, line);
      if MatchesAt(text, line, Search(key)) {
        found := true;
      } else {
        Assoc(buffer[..len], text[line..next], DeleteText(text[next..], key));
        len := CopyInto(buffer, len, text[line..next]);
      }
      line := next;
    }
    DeleteEnd(key);
    WholeAndNothing(buffer[..len]);
  }

  lemma GetTurn(text: string, line: nat, key: string)
    requires line < |text|
    ensures MatchesAt(text, line, Search(key)) ==> line + |Search(key)| <= |text|
    ensures GetText(text[line..], key) ==
      if MatchesAt(text, line, Search(key)) then
        var start := line + |Search(key)|;
        Some(text[start..start + NewlineAt(text[start..])])
      else GetText(text[line + LineLength(text[line..])..], key)
  {
    hide NewlineAt;
    var rest := text[line..];
    var n := LineLength(rest);
    assert rest[n..] == text[line + n..];
    MatchIsPrefix(text, line, Search(key));
    if MatchesAt(text, line, Search(key)) {
      var start := line + |Search(key)|;
      assert rest[|Search(key)|..] == text[start..];
      assert text[start..][..NewlineAt(text[start..])] == text[start..start + NewlineAt(text[start..])];
    }
  }

  lemma GetEnd(key: string)
    ensures GetText("", key) == None
  {
  }

  method ToNewline(text: string, start: nat) returns (value: string)
    requires start <= |text|
    ensures value == text[start..start + NewlineAt(text[start..])]
  {
    var end := FindNewline(text, start);
    return text[start..end];
  }

  // The lines before this one do not match.
  ghost predicate SameFrom(text: string, line: nat, key: string)
    requires line <= |text|
  {
    GetText(text[line..], key) == GetText(text, key)
  }

  lemma SameTurn(text: string, line: nat, key: string)
    requires line < |text| && SameFrom(text, line, key)
    ensures line + LineLength(text[line..]) <= |text|
    ensures if MatchesAt(text, line, Search(key)) then
        var start := line + |Search(key)|;
        start <= |text| && GetText(text, key) == Some(text[start..start + NewlineAt(text[start..])])
      else SameFrom(text, line + LineLength(text[line..]), key)
  {
    GetTurn(text, line, key);
    hide GetText, LineLength, NewlineAt, Search, MatchesAt;
  }

  lemma SameAtStart(text: string, key: string)
    ensures SameFrom(text, 0, key)
  {
    WholeAndNothing(text);
  }

  lemma SameAtEnd(text: string, key: string)
    requires SameFrom(text, |text|, key)
    ensures GetText(text, key) == None
  {
    WholeAndNothing(text);
    GetEnd(key);
  }

  /** The scanning loop of a get. */
  method FindRaw(text: string, key: string) returns (raw: Option<string>)
    ensures raw == GetText(text, key)
  {
    hide GetText, LineLength, NewlineAt, Search, MatchesAt, SameFrom;
    var line := 0;
    SameAtStart(text, key);
    while line < |text|
      invariant line <= |text| && SameFrom(text, line, key)
    {
      SameTurn(text, line, key);
      if MatchesAt(text, line, Search(key)) {
        var value := ToNewline(text, line + |Search(key)|);
        return Some(value);
      }
      line := NextLine(text, line);
    }
    SameAtEnd(text, key);
    return None;
  }

  // ---------- The public calls ----------

  // The buffer holds the text and its terminator.
  predicate HoldsText(buffer: array<char>, text: string)
    reads buffer
  {
    |text| < buffer.Length && buffer[..|text|] == text && buffer[|text|] == '\0'
  }

  // The index behind the last slash, as strrchr finds it, or 0.
  method FindLastSlash(text: string) returns (n: nat)
    ensures n == AfterLastSlash(text)
  {
    n := |text|;
    while n > 0 && text[n - 1] != '/'
      invariant n <= |text|
      invariant forall i :: n <= i < |text| ==> text[i] != '/'
    {
      n := n - 1;
    }
    if n > 0 {
      LastSlashIs(text, n);
    }
  }

  method CopyText(buffer: array<char>, text: string)
    requires |text| < buffer.Length
    modifies buffer
    ensures HoldsText(buffer, text)
  {
    var end := CopyInto(buffer, 0, text);
    assert buffer[..end] == text;
    buffer[end] := '\0';
  }

  /** Copies the parts of a key into buffers of the store's limit, and says whether they fit;
      where they do not, the copies would leave the buffers. */
  method ParseInto(full: string, limit: nat) returns (fits: bool, slot: Slot)
    ensures slot == ParseKey(full) && fits == KeyFits(slot, limit)
  {
    var namespace, key := new char[limit], new char[limit];
    var n := FindLastSlash(full);
    slot := if n == 0 then Slot("", full) else Slot(full[..n - 1], full[n..]);
    if |slot.key| >= key.Length {
      return false, slot;
    }
    CopyText(key, slot.key);
    if |slot.namespace| >= namespace.Length {
      return false, slot;
    }
    CopyText(namespace, slot.namespace);
    assert HoldsText(key, slot.key);
    return true, Slot(namespace[..|slot.namespace|], key[..|slot.key|]);
  }

  class Card {
    const maxValueLen: nat
    var files: map<string, string>

    constructor (maxValueLen: nat)
      ensures this.maxValueLen == maxValueLen && files == map[]
    {
      this.maxValueLen := maxValueLen;
      files := map[];
    }

    method SetValue(key: string, value: string, writeOk: bool) returns (result: Result)
      modifies this
      ensures (files, result) == Step(old(files), maxValueLen, Set(key, value), writeOk)
    {
      CopiesStayInsideIff(files, maxValueLen, Set(key, value), writeOk);
      hide SetText, Escape, FilePath, ParseKey, KeyFits;
      if |value| >= maxValueLen || |key| >= maxValueLen {
        return Failed(TooBig);
      }
      var fits, slot := ParseInto(key, maxValueLen);
      assert fits;
      var path := FilePath(slot.namespace);
      if |path| >= maxValueLen {
        return Failed(Invalid);
      }
      var escaped, n := EscapeValue(value);
      var newLine := slot.key + "-" + escaped[..n] + "\n";
      var text := if path in files then files[path] else "";
      var content, len := RewriteForSet(text, slot.key, newLine);
      if !writeOk {
        return Failed(IoError);
      }
      files := files[path := content[..len]];
      return Done;
    }

    /** Fills the caller's buffer with at most `maxLen` characters, terminator included. */
    method GetValue(key: string, maxLen: nat) returns (result: Result)
      ensures (files, result) == Step(files, maxValueLen, Get(key, maxLen), true)
    {
      CopiesStayInsideIff(files, maxValueLen, Get(key, maxLen), true);
      hide GetText, Unescape, FilePath, ParseKey, KeyFits;
      if maxLen == 0 || |key| >= maxValueLen {
        return Failed(Invalid);
      }
      var fits, slot := ParseInto(key, maxValueLen);
      assert fits;
      var path := FilePath(slot.namespace);
      if |path| >= maxValueLen {
        return Failed(Invalid);
      }
      if path !in files {
        return Failed(NoEntry);
      }
      var raw := FindRaw(files[path], slot.key);
      if raw.None? {
        return Failed(NoEntry);
      }
      var unescaped, n := UnescapeValue(Prefix(raw.value, maxValueLen - 1));
      return Value(Prefix(unescaped[..n], maxLen - 1));
    }

    method DeleteValue(key: string, writeOk: bool) returns (result: Result)
      modifies this
      ensures (files, result) == Step(old(files), maxValueLen, Delete(key), writeOk)
    {
      hide DeleteText, HasLine, FilePath, ParseKey, KeyFits;
      var fits, slot := ParseInto(key, maxValueLen);
      if !fits {
        return Overrun;
      }
      var path := FilePath(slot.namespace);
      if |path| >= maxValueLen {
        return Failed(Invalid);
      }
      if path !in files {
        return Failed(NoEntry);
      }
      var content, len, found := RewriteForDelete(files[path], slot.key);
      if !found {
        return Failed(NoEntry);
      }
      if !writeOk {
        return Failed(IoError);
      }
      if len > 0 {
        files := files[path := content[..len]];
      } else {
        files := files - {path};
      }
      return Done;
    }
  }
}
