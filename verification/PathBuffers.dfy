/** Path handling in the caller's buffers: a path is squeezed in place, and a joined path is
    written piece by piece while it fits. */
module PathBuffers {
  import opened Basics
  import opened Paths

  // The buffer holds the text and its terminator.
  predicate Holds(buffer: array<char>, text: string)
    reads buffer
  {
    && |text| < buffer.Length && buffer[|text|] == '\0' && '\0' !in text
    && forall i :: 0 <= i < |text| ==> buffer[i] == text[i]
  }

  lemma SqueezeTurn(text: string, src: nat, last: bool)
    requires src < |text|
    ensures var slash := text[src] == '/';
      Squeeze(text[src..], last) ==
      (if slash && last then "" else [text[src]]) + Squeeze(text[src + 1..], slash)
  {
    assert text[src..][1..] == text[src + 1..];
  }

  lemma SqueezeIsShorter(s: string, last: bool)
    ensures |Squeeze(s, last)| <= |s|
    ensures '\0' !in s ==> '\0' !in Squeeze(s, last)
    decreases |s|
  {
    if s != "" && '\0' !in s {
      assert '\0' !in s[1..] && s[0] in s;
    }
  }

  // The buffer while it is squeezed: what is copied, and what is still to come.
  ghost predicate Squeezing(buffer: array<char>, text: string, src: nat, dst: nat, last: bool)
    reads buffer
  {
    && dst <= src <= |text| < buffer.Length
    && (forall i :: src <= i < |text| ==> buffer[i] == text[i])
    && buffer[|text|] == '\0'
    && Squeeze(text, false) == buffer[..dst] + Squeeze(text[src..], last)
  }

  lemma SqueezingTurn(before: string, after: string, text: string, src: nat, last: bool)
    requires src < |text|
    requires Squeeze(text, false) == before + Squeeze(text[src..], last)
    requires after == if text[src] == '/' && last then before else before + [text[src]]
    ensures Squeeze(text, false) == after + Squeeze(text[src + 1..], text[src] == '/')
  {
    SqueezeTurn(text, src, last);
    var rest := Squeeze(text[src + 1..], text[src] == '/');
    hide Squeeze;
    WholeAndNothing(rest);
    Assoc(before, [text[src]], rest);
  }

  method CopyTurn(buffer: array<char>, ghost text: string, src: nat, dst: nat, last: bool) returns (dst': nat, last': bool)
    requires Squeezing(buffer, text, src, dst, last) && src < |text|
    modifies buffer
    ensures Squeezing(buffer, text, src + 1, dst', last')
    ensures forall i :: |text| < i < buffer.Length ==> buffer[i] == old(buffer[i])
  {
    hide Squeeze;
    ghost var before := buffer[..dst];
    var c := buffer[src];
    dst', last' := dst, c == '/';
    if c != '/' || !last {
      buffer[dst] := c;
      dst' := dst + 1;
    }
    assert buffer[..dst'] == if c == '/' && last then before else before + [c];
    SqueezingTurn(before, buffer[..dst'], text, src, last);
  }

  /** The path is normalised where it stands, and nothing behind its terminator is touched. */
  method NormalizePath(path: array<char>, ghost text: string) returns (rc: int)
    requires Holds(path, text)
    modifies path
    ensures rc == 0 && Holds(path, Normalize(text))
    ensures forall i :: |text| < i < path.Length ==> path[i] == old(path[i])
  {
    hide Squeeze;
    if path[0] == '\0' {
      NormalizeNothing(text);
      return 0;
    }
    var src: nat, dst: nat, last := 0, 0, false;
    SqueezingStarts(path, text);
    hide Squeezing, Holds;
    while path[src] != '\0'
      invariant Squeezing(path, text, src, dst, last) && src <= |text| < path.Length
      invariant src < |text| ==> path[src] == text[src]
      invariant src == |text| ==> path[src] == '\0'
      invariant forall i :: |text| < i < path.Length ==> path[i] == old(path[i])
      decreases |text| - src
    {
      dst, last := CopyTurn(path, text, src, dst, last);
      src := src + 1;
      SqueezingReads(path, text, src, dst, last);
    }
    Finish(path, text, dst, last);
    return 0;
  }

  lemma SqueezingStarts(path: array<char>, text: string)
    requires Holds(path, text)
    ensures Squeezing(path, text, 0, 0, false)
  {
    WholeAndNothing(text);
    WholeAndNothing(Squeeze(text, false));
  }

  lemma SqueezingReads(path: array<char>, text: string, src: nat, dst: nat, last: bool)
    requires Squeezing(path, text, src, dst, last)
    ensures src <= |text| < path.Length && path[src] == if src < |text| then text[src] else '\0'
  {
  }

  // Terminates the squeezed text, and drops a slash at its end.
  method Finish(path: array<char>, ghost text: string, dst: nat, ghost last: bool)
    requires Squeezing(path, text, |text|, dst, last) && '\0' !in text
    modifies path
    ensures Holds(path, Normalize(text))
    ensures forall i :: |text| < i < path.Length ==> path[i] == old(path[i])
  {
    SqueezingEnds(path, text, dst, last);
    hide Squeeze, Squeezing, Normalize;
    path[dst] := '\0';
    if dst > 1 && path[dst - 1] == '/' {
      path[dst - 1] := '\0';
    }
  }

  lemma SqueezingEnds(path: array<char>, text: string, dst: nat, last: bool)
    requires Squeezing(path, text, |text|, dst, last) && '\0' !in text
    ensures var normal := Normalize(text);
      && dst <= |text| < path.Length && '\0' !in normal
      && |normal| == (if dst > 1 && path[dst - 1] == '/' then dst - 1 else dst)
      && forall i :: 0 <= i < |normal| ==> path[i] == normal[i]
  {
    WholeAndNothing(text);
    SqueezeNothing(last);
    WholeAndNothing(path[..dst]);
    SqueezeIsShorter(text, false);
    hide Squeeze;
    assert path[..dst] == Squeeze(text, false);
  }

  lemma SqueezeNothing(last: bool)
    ensures Squeeze("", last) == ""
  {
  }

  lemma NormalizeNothing(text: string)
    requires text == "" || text[0] == '\0'
    ensures '\0' !in text ==> Normalize(text) == text
  {
  }

  // ---------- Building ----------

  // The buffer holds a text of the given length, all of it a beginning of the whole path.
  ghost predicate HoldsStart(buffer: array<char>, whole: string, pos: nat)
    reads buffer
  {
    && pos <= |whole| && pos < buffer.Length && buffer[pos] == '\0'
    && forall i :: 0 <= i < pos ==> buffer[i] == whole[i]
  }

  /** Appends a piece if it fits with its terminator. */
  method Append(out: array<char>, pos: nat, piece: string, ghost whole: string) returns (ok: bool, pos': nat)
    requires HoldsStart(out, whole, pos)
    requires Continues(whole, pos, piece)
    modifies out
    ensures HoldsStart(out, whole, pos')
    ensures ok == (pos + |piece| < out.Length) && pos' == if ok then pos + |piece| else pos
  {
    if pos + |piece| >= out.Length {
      return false, pos;
    }
    assert forall i :: pos <= i < pos + |piece| ==> whole[i] == whole[pos..pos + |piece|][i - pos];
    for i := 0 to |piece|
      invariant forall k :: 0 <= k < pos + i ==> out[k] == whole[k]
    {
      out[pos + i] := piece[i];
    }
    pos' := pos + |piece|;
    out[pos'] := '\0';
    ok := true;
  }

  // The piece stands in the whole at this position.
  predicate Continues(whole: string, pos: nat, piece: string) {
    pos + |piece| <= |whole| && whole[pos..pos + |piece|] == piece
  }

  lemma PieceOf(before: string, piece: string, after: string)
    ensures Continues(before + piece + after, |before|, piece)
  {
  }

  lemma Pieces(base: string, app: string, file: string)
    ensures var whole, based, mark := Joined(base, app, file), WithSlash(base), if app != "" && file != "" then "/" else "";
      && Continues(whole, |based|, app)
      && Continues(whole, |based| + |app|, mark)
      && Continues(whole, |based| + |app| + |mark|, file)
      && |whole| == |based| + |app| + |mark| + |file|
  {
    var based, mark := WithSlash(base), if app != "" && file != "" then "/" else "";
    hide Continues, WithSlash;
    Assoc(based + app, mark, file);
    PieceOf(based, app, mark + file);
    PieceOf(based + app, mark, file);
    WholeAndNothing(based + app + mark + file);
    PieceOf(based + app + mark, file, "");
  }

  lemma BasePieces(base: string, app: string, file: string)
    requires base != ""
    ensures var whole := Joined(base, app, file);
      Continues(whole, 0, base) && (base[|base| - 1] != '/' ==> Continues(whole, |base|, "/"))
  {
    var whole, rest := Joined(base, app, file), app + (if app != "" && file != "" then "/" else "") + file;
    Assoc(WithSlash(base), app, if app != "" && file != "" then "/" else "");
    Assoc(WithSlash(base), app + (if app != "" && file != "" then "/" else ""), file);
    assert whole == WithSlash(base) + rest;
    hide Continues, Joined;
    if base[|base| - 1] == '/' {
      PieceOf("", base, rest);
      WholeAndNothing(base);
    } else {
      Assoc(base, "/", rest);
      PieceOf("", base, "/" + rest);
      WholeAndNothing(base);
      PieceOf(base, "/", rest);
    }
  }

  lemma StartsEmpty(out: array<char>, whole: string)
    requires out.Length > 0 && out[0] == '\0'
    ensures HoldsStart(out, whole, 0)
  {
  }

  lemma EndsAs(out: array<char>, whole: string, base: string)
    requires base != "" && HoldsStart(out, whole, |base|) && Continues(whole, 0, base)
    ensures |base| < out.Length && out[|base| - 1] == base[|base| - 1]
  {
    assert whole[..|base|][|base| - 1] == base[|base| - 1];
  }

  // The base, and a slash behind it unless it ends in one.
  method AppendBase(out: array<char>, base: string, ghost app: string, ghost file: string) returns (ok: bool, pos: nat)
    requires HoldsStart(out, Joined(base, app, file), 0)
    modifies out
    ensures HoldsStart(out, Joined(base, app, file), pos)
    ensures ok == (|WithSlash(base)| < out.Length) && (ok ==> pos == |WithSlash(base)|)
  {
    ok, pos := true, 0;
    if base == "" {
      return;
    }
    ghost var whole := Joined(base, app, file);
    BasePieces(base, app, file);
    hide HoldsStart, Joined, Continues;
    ok, pos := Append(out, pos, base, whole);
    if !ok {
      return;
    }
    EndsAs(out, whole, base);
    if out[pos - 1] != '/' {
      ok, pos := Append(out, pos, "/", whole);
    }
  }

  /** The joined path is written if it fits with its terminator; otherwise the call fails and
      leaves a beginning of it. */
  method BuildPath(out: array<char>, base: string, app: string, file: string) returns (rc: int)
    modifies out
    ensures var whole := Joined(base, app, file);
      rc == if out.Length == 0 then -EINVAL else if |whole| < out.Length then 0 else -ENAMETOOLONG
    ensures rc == 0 ==> HoldsStart(out, Joined(base, app, file), |Joined(base, app, file)|)
    ensures out.Length > 0 ==> exists pos :: HoldsStart(out, Joined(base, app, file), pos)
  {
    if out.Length == 0 {
      return -EINVAL;
    }
    ghost var whole := Joined(base, app, file);
    Pieces(base, app, file);
    hide Joined, Continues;
    out[0] := '\0';
    var pos, ok;
    StartsEmpty(out, whole);
    hide HoldsStart, WithSlash;
    ok, pos := AppendBase(out, base, app, file);
    if !ok {
      return -ENAMETOOLONG;
    }
    if app != "" {
      ok, pos := Append(out, pos, app, whole);
      if !ok {
        return -ENAMETOOLONG;
      }
      if file != "" {
        ok, pos := Append(out, pos, "/", whole);
        if !ok {
          return -ENAMETOOLONG;
        }
      }
    }
    if file != "" {
      ok, pos := Append(out, pos, file, whole);
      if !ok {
        return -ENAMETOOLONG;
      }
    }
    return 0;
  }
}
