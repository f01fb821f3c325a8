/** The device-tree module helpers: `of_modalias`, which builds the modalias
    into a caller buffer of `len` bytes and returns its untruncated length,
    and `of_request_module`, which measures, allocates, fills and hands the
    string to the module loader. */
module OfModule {
  import opened CStrings
  import opened Modalias

  /** Kernel error numbers, returned negated. */
  const ENOMEM: int := 12
  const ENODEV: int := 19
  const EINVAL: int := 22

  /** The sanitising loop of `of_modalias`: from `at`, `strchr` finds each
      ' ' before the terminator at `e` and it becomes '_'. Nothing else changes. */
  method ReplaceSpaces(b: seq<char>, at: nat, ghost e: nat) returns (r: seq<char>)
    requires at <= e < |b| && b[e] == NUL
    requires forall k :: at <= k < e ==> b[k] != NUL
    ensures r == b[..at] + Sanitise(b[at..e]) + b[e..]
  {
    r := b;
    var c: Option<nat> := Some(at);
    while c.Some?
      invariant |r| == |b| && r[e] == NUL
      invariant c.Some? ==> at <= c.value <= e
      invariant forall k :: 0 <= k < |b| && !(at <= k < e) ==> r[k] == b[k]
      invariant forall k :: at <= k < e ==> r[k] != NUL
      invariant forall k :: at <= k < e && c.Some? && k < c.value ==> r[k] == SanitiseChar(b[k])
      invariant forall k :: at <= k < e && c.Some? && c.value <= k ==> r[k] == b[k]
      invariant forall k :: at <= k < e && c.None? ==> r[k] == SanitiseChar(b[k])
      decreases if c.Some? then e + 1 - c.value else 0
    {
      var from := c.value;
      c := StrChr(r, from, ' ');
      if c.Some? {
        r := r[c.value := '_'];
        c := Some(c.value + 1);
      } else {
        forall k | from <= k < e
          ensures r[k] == SanitiseChar(b[k])
        {
          assert r[k] == b[k];
        }
      }
    }
    assert r[..at] == b[..at];
    assert r[at..e] == Sanitise(b[at..e]);
    assert r[e..] == b[e..];
    assert r == r[..at] + r[at..e] + r[e..];
  }

  /** The buffer shows window `w` with its cursor at `cursor`: the committed
      text before the cursor, then the pending text and a NUL. */
  predicate Holds(b: seq<char>, cursor: nat, w: Window) {
    && cursor + |w.pending| < |b|
    && b[..cursor] == w.committed
    && b[cursor..cursor + |w.pending|] == w.pending
    && b[cursor + |w.pending|] == NUL
  }

  /** A field that fits is committed (lines 42-48): once the formatter has
      written it with its NUL, its spaces are replaced, nothing outside it
      changes, and the buffer shows the sanitised field before the new cursor. */
  method CommitField(b: seq<char>, g: seq<char>, cursor: nat, field: seq<char>, ghost w: Window)
    returns (r: seq<char>)
    requires NoNul(field) && w.rem > |field| && Holds(b, cursor, w)
    requires |g| == |b| && cursor + w.rem <= |b|
    requires g[cursor..cursor + |field|] == field && g[cursor + |field|] == NUL
    requires forall k :: 0 <= k < |b| && !(cursor <= k <= cursor + |field|) ==> g[k] == b[k]
    ensures |r| == |b|
    ensures forall k :: 0 <= k < |b| && !(cursor <= k < cursor + w.rem) ==> r[k] == b[k]
    ensures Holds(r, cursor + |field|, Step(w, field))
  {
    r := ReplaceSpaces(g, cursor, cursor + |field|);
    assert r[..cursor] == b[..cursor];
    assert r[..cursor + |field|] == r[..cursor] + Sanitise(field);
  }

  /** A field that does not fit leaves the cursor; what the formatter managed
      to write becomes the pending text. */
  lemma SkipHolds(b: seq<char>, g: seq<char>, cursor: nat, field: seq<char>, w: Window)
    requires 0 < w.rem <= |field| && Holds(b, cursor, w)
    requires |g| == |b| && cursor + w.rem <= |g|
    requires forall k :: 0 <= k < cursor ==> g[k] == b[k]
    requires g[cursor..cursor + w.rem - 1] == field[..w.rem - 1] && g[cursor + w.rem - 1] == NUL
    ensures Holds(g, cursor, Step(w, field))
  {
    assert g[..cursor] == b[..cursor];
  }

  /** One pass of the compatible loop of `of_modalias`: format "C%s" at the
      cursor into the remaining `rem` bytes; only when it fits are its spaces
      replaced and the cursor advanced. The buffer then shows the next window. */
  method FormatCompatible(b: seq<char>, cursor: nat, rem: nat, compat: seq<char>, ghost w: Window)
    returns (b': seq<char>, csize: nat, cursor': nat, rem': nat)
    requires NoNul(compat)
    requires cursor + rem <= |b|
    requires rem > 0 ==> w.rem == rem && Holds(b, cursor, w)
    ensures csize == 1 + |compat|
    ensures cursor' + rem' == cursor + rem
    ensures |b'| == |b|
    ensures forall k :: 0 <= k < |b| && !(cursor <= k < cursor + rem) ==> b'[k] == b[k]
    ensures rem == 0 ==> b' == b && rem' == 0
    ensures csize >= rem ==> cursor' == cursor && rem' == rem
    ensures csize < rem ==> cursor' == cursor + csize && rem' >= 1
    ensures rem > 0 ==> Step(w, Field(compat)).rem == rem' && Holds(b', cursor', Step(w, Field(compat)))
  {
    var field := Field(compat);
    var g := Snprintf(b, cursor, rem, field);
    b' := g.buf;
    csize := g.size;
    if csize < rem {
      assert NoNul(field);
      assert g.buf[cursor..cursor + csize] == field && g.buf[cursor + csize] == NUL;
      b' := CommitField(b, g.buf, cursor, field, w);
      rem' := rem - csize;
      cursor' := cursor + csize;
    } else {
      if rem > 0 {
        SkipHolds(b, g.buf, cursor, field, w);
      }
      rem' := rem;
      cursor' := cursor;
    }
  }

  /** The name-and-type field of `of_modalias`, "of:N%pOFn%c%s" at the start
      of the buffer: the returned size is the untruncated one, and on
      truncation the cursor stops at len - 1, on the formatter's NUL. */
  method FormatPrefix(np: Node, b: seq<char>, len: nat)
    returns (b': seq<char>, tsize: nat, cursor: nat, rem: nat)
    requires NoNul(Prefix(np))
    requires len <= |b|
    ensures tsize == |Prefix(np)|
    ensures cursor + rem == len
    ensures |b'| == |b|
    ensures forall k :: len <= k < |b| ==> b'[k] == b[k]
    ensures len == 0 ==> b' == b && rem == 0
    ensures tsize < len ==> cursor == tsize
    ensures 0 < len <= tsize ==> cursor == len - 1 && rem == 1
    ensures len > 0 ==> Start(np, len).rem == rem && Holds(b', cursor, Start(np, len))
  {
    var f := Snprintf(b, 0, len, Prefix(np));
    b' := f.buf;
    var csize := f.size;
    tsize := csize;
    if csize >= len {
      csize := if len > 0 then len - 1 else 0;
    }
    rem := len - csize;
    cursor := csize;
    if len > 0 {
      assert b'[..cursor] == Prefix(np)[..cursor];
    }
  }

  /** `of_modalias(np, str, len)`. `str` is None for a NULL pointer; when it
      is present the caller owns at least `len` bytes of it. The result is
      -EINVAL for a negative length or a positive length with no buffer, and
      otherwise the full length, whatever `len` is. Bytes at or past `len`
      are never written; with `len` > 0 the buffer holds a terminated string
      inside the `len` bytes, and when `len` exceeds the full length that
      string is the whole modalias. */
  method OfModalias(np: Node, str: Option<seq<char>>, len: int) returns (ret: int, out: Option<seq<char>>)
    requires WellFormed(np)
    requires str.Some? ==> len <= |str.value|
    ensures ret == -EINVAL <==> len < 0 || (len > 0 && str.None?)
    ensures ret != -EINVAL ==> ret == FullLength(np)
    ensures ret == -EINVAL || len == 0 ==> out == str
    ensures out.Some? <==> str.Some?
    ensures str.Some? ==> |out.value| == |str.value|
    ensures str.Some? ==> forall k :: 0 <= len <= k < |str.value| ==> out.value[k] == str.value[k]
    ensures str.Some? && len > 0 ==> NUL in out.value[..len] && CString(out.value) == Shown(np, len)
    ensures str.Some? && len > FullLength(np) ==>
      out.value[..FullLength(np)] == ModaliasString(np) && out.value[FullLength(np)] == NUL
  {
    if (len > 0 && str.None?) || len < 0 {
      return -EINVAL, str;
    }
    var b0 := if str.Some? then str.value else [];
    var b := b0;
    var cs := np.compatible;

    var tsize, cursor, rem;
    b, tsize, cursor, rem := FormatPrefix(np, b, len);
    assert cs[..0] == [];

    // compatible strings
    var i := 0;
    while i < |cs|
      invariant 0 <= i <= |cs|
      invariant tsize == |Prefix(np)| + FieldsSize(cs[..i])
      invariant cursor + rem == len
      invariant |b| == |b0|
      invariant forall k :: len <= k < |b| ==> b[k] == b0[k]
      invariant len == 0 ==> b == b0 && rem == 0
      invariant len > 0 ==> Run(np, cs[..i], len).rem == rem && Holds(b, cursor, Run(np, cs[..i], len))
    {
      ghost var w := if len > 0 then Run(np, cs[..i], len) else Window([], 0, []);
      assert NoNul(cs[i]);
      var csize;
      b, csize, cursor, rem := FormatCompatible(b, cursor, rem, cs[i], w);
      tsize := tsize + csize;
      RunOneMore(np, cs, i, len);
      i := i + 1;
    }
    assert cs[..i] == cs;
    ret := tsize;

    if str.Some? && len > 0 {
      BufferShowsResult(np, len, b, cursor);
    }
    out := if str.Some? then Some(b) else None;
  }

  /** What a buffer showing the final window holds, read as a C string. */
  lemma BufferShowsResult(np: Node, len: nat, b: seq<char>, cursor: nat)
    requires WellFormed(np) && 0 < len <= |b|
    requires Holds(b, cursor, Run(np, np.compatible, len))
    ensures NUL in b[..len] && CString(b) == Shown(np, len)
    ensures len > FullLength(np) ==> b[..FullLength(np)] == ModaliasString(np) && b[FullLength(np)] == NUL
  {
    var w := Run(np, np.compatible, len);
    ShownNoNul(np, len);
    assert b[..cursor + |w.pending|] == w.committed + w.pending;
    TerminatedAt(b, Shown(np, len));
    assert b[..len][cursor + |w.pending|] == NUL;
    if len > FullLength(np) {
      ShownIsModalias(np, len);
      ModaliasLength(np);
    }
  }

  /** The buffer's life in `of_request_module`: it is allocated with the
      given size, its text is handed to the module loader, and it is freed. */
  datatype Event = Alloc(bytes: nat) | Load(alias: seq<char>) | Free

  /** `of_request_module(np)`. `np` is None for a NULL node, `allocSucceeds`
      is the outcome of `kmalloc` and `requestModule` stands for the module
      loader. A NULL node gives -ENODEV and a failed allocation -ENOMEM;
      otherwise a buffer of the full length plus one is allocated, the loader
      is asked for exactly the modalias, the buffer is freed, and the loader's
      result is returned. */
  method OfRequestModule(np: Option<Node>, allocSucceeds: bool, requestModule: seq<char> -> int)
    returns (ret: int, trace: seq<Event>)
    requires np.Some? ==> WellFormed(np.value)
    ensures np.None? ==> ret == -ENODEV && trace == []
    ensures np.Some? && !allocSucceeds ==> ret == -ENOMEM && trace == []
    ensures np.Some? && allocSucceeds ==>
      && ret == requestModule(ModaliasString(np.value))
      && trace == [Alloc(|ModaliasString(np.value)| + 1), Load(ModaliasString(np.value)), Free]
  {
    if np.None? {
      return -ENODEV, [];
    }
    var node := np.value;

    var size, _ := OfModalias(node, None, 0);
    if size < 0 {
      // a size query with no buffer and length 0 always passes the argument check
      assert false;
    }

    // one more byte for the terminator
    size := size + 1;
    if !allocSucceeds {
      return -ENOMEM, [];
    }
    var a := new char[size];
    trace := [Alloc(size)];

    var filled, written := OfModalias(node, Some(a[..]), size);
    forall k | 0 <= k < size {
      a[k] := written.value[k];
    }
    a[size - 1] := NUL;

    ModaliasNoNul(node);
    ModaliasLength(node);
    assert a[..][..size - 1] == ModaliasString(node);
    TerminatedAt(a[..], ModaliasString(node));
    var alias := CString(a[..]);
    ret := requestModule(alias);
    trace := trace + [Load(alias), Free];
  }
}
