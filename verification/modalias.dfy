/** The device-tree modalias `of:N<name>T<type>C<compat>C<compat>...` as a
    pure specification: the whole string, its length, and what a buffer of
    `len` bytes holds once the bounded builder has run. */
module Modalias {
  import opened CStrings

  /** What the builder reads from a device-tree node: the node name as `%pOFn`
      renders it, whatever the formatter prints for the `device_type` property
      (including what it prints for a node that has no such property), and the
      strings of the "compatible" property, in order. */
  datatype Node = Node(name: seq<char>, deviceType: seq<char>, compatible: seq<seq<char>>)

  /** Every part of the node is a C string. */
  predicate WellFormed(np: Node) {
    && NoNul(np.name)
    && NoNul(np.deviceType)
    && forall i :: 0 <= i < |np.compatible| ==> NoNul(np.compatible[i])
  }

  /** The name-and-type field, formatted as "of:N%pOFn%c%s" with 'T'. */
  function Prefix(np: Node): seq<char> {
    "of:N" + np.name + "T" + np.deviceType
  }

  /** One compatible field as the formatter writes it, "C%s". */
  function Field(compat: seq<char>): seq<char> {
    "C" + compat
  }

  /** The substitution applied to a compatible field that fits. */
  function SanitiseChar(ch: char): char {
    if ch == ' ' then '_' else ch
  }

  function Sanitise(s: seq<char>): (r: seq<char>)
    ensures |r| == |s|
    ensures forall k :: 0 <= k < |r| ==> r[k] != ' '
    ensures forall k :: 0 <= k < |s| && s[k] != ' ' ==> r[k] == s[k]
    ensures forall k :: 0 <= k < |s| && s[k] == ' ' ==> r[k] == '_'
  {
    seq(|s|, k requires 0 <= k < |s| => SanitiseChar(s[k]))
  }

  /** Sum of the logical sizes of the compatible fields: one 'C' plus the string each. */
  function FieldsSize(cs: seq<seq<char>>): nat {
    if cs == [] then 0 else FieldsSize(cs[..|cs| - 1]) + 1 + |cs[|cs| - 1]|
  }

  /** The length of the untruncated modalias, independent of any buffer. */
  function FullLength(np: Node): nat {
    4 + |np.name| + 1 + |np.deviceType| + FieldsSize(np.compatible)
  }

  /** The compatible fields, each sanitised, in property order. */
  function Fields(cs: seq<seq<char>>): seq<char> {
    if cs == [] then [] else Fields(cs[..|cs| - 1]) + Sanitise(Field(cs[|cs| - 1]))
  }

  /** The modalias a large enough buffer receives. */
  function ModaliasString(np: Node): seq<char> {
    Prefix(np) + Fields(np.compatible)
  }

  lemma {:induction false} FieldsLength(cs: seq<seq<char>>)
    ensures |Fields(cs)| == FieldsSize(cs)
    decreases |cs|
  {
    if cs != [] {
      FieldsLength(cs[..|cs| - 1]);
    }
  }

  /** The returned length is the length of the string the buffer would hold. */
  lemma ModaliasLength(np: Node)
    ensures |ModaliasString(np)| == FullLength(np)
  {
    FieldsLength(np.compatible);
  }

  lemma {:induction false} FieldsNoNul(cs: seq<seq<char>>)
    requires forall i :: 0 <= i < |cs| ==> NoNul(cs[i])
    ensures NoNul(Fields(cs))
    decreases |cs|
  {
    if cs != [] {
      var init := cs[..|cs| - 1];
      FieldsNoNul(init);
      var last := cs[|cs| - 1];
      assert NoNul(Field(last));
    }
  }

  lemma ModaliasNoNul(np: Node)
    requires WellFormed(np)
    ensures NoNul(ModaliasString(np))
  {
    FieldsNoNul(np.compatible);
  }

  /** Spaces are replaced throughout the compatible part and nowhere else:
      the prefix is copied verbatim and the compatible part has no ' '. */
  lemma {:induction false} FieldsHaveNoSpace(cs: seq<seq<char>>)
    ensures forall k :: 0 <= k < |Fields(cs)| ==> Fields(cs)[k] != ' '
    decreases |cs|
  {
    if cs != [] {
      FieldsHaveNoSpace(cs[..|cs| - 1]);
    }
  }

  lemma SanitisedOnlyAfterPrefix(np: Node)
    ensures ModaliasString(np)[..|Prefix(np)|] == Prefix(np)
    ensures forall k :: |Prefix(np)| <= k < |ModaliasString(np)| ==> ModaliasString(np)[k] != ' '
  {
    var p := Prefix(np);
    var fs := Fields(np.compatible);
    FieldsHaveNoSpace(np.compatible);
    forall k | |p| <= k < |ModaliasString(np)|
      ensures ModaliasString(np)[k] != ' '
    {
      assert ModaliasString(np)[k] == fs[k - |p|];
    }
  }

  /** The i-th compatible string occupies its own slot, in property order:
      its sanitised field starts after the fields of the entries before it. */
  lemma {:induction false} FieldPlacement(cs: seq<seq<char>>, i: nat)
    requires i < |cs|
    ensures FieldsSize(cs[..i]) + 1 + |cs[i]| <= |Fields(cs)|
    ensures Fields(cs)[FieldsSize(cs[..i])..FieldsSize(cs[..i]) + 1 + |cs[i]|] == Sanitise(Field(cs[i]))
    decreases |cs|
  {
    var init := cs[..|cs| - 1];
    FieldsLength(init);
    FieldsLength(cs[..i]);
    if i == |cs| - 1 {
      assert cs[..i] == init;
    } else {
      assert init[..i] == cs[..i];
      FieldPlacement(init, i);
      var lo := FieldsSize(cs[..i]);
      var hi := lo + 1 + |cs[i]|;
      assert Fields(cs)[lo..hi] == Fields(init)[lo..hi];
    }
  }

  /** What the buffer shows while the builder runs with an original length
      above zero: `committed` is the text before the cursor, `rem` the
      remaining length, and `pending` the unsanitised head of the last
      compatible field when that field did not fit; it sits after the cursor
      until a later field overwrites it. */
  datatype Window = Window(committed: seq<char>, rem: nat, pending: seq<char>)

  /** The window after the name-and-type field: on truncation the cursor
      stops at len - 1, where the formatter put its NUL. */
  function Start(np: Node, len: nat): (w: Window)
    requires len > 0
    ensures |w.committed| + w.rem == len && w.rem > 0 && w.pending == []
    ensures w.committed <= Prefix(np)
  {
    var p := Prefix(np);
    if |p| < len then Window(p, len - |p|, []) else Window(p[..len - 1], 1, [])
  }

  /** One compatible field: it is committed, sanitised, only when its size is
      below the remaining length; otherwise the cursor stays and the head the
      formatter managed to write becomes the pending text. */
  function Step(w: Window, f: seq<char>): (w': Window)
    requires w.rem > 0
    ensures w'.rem > 0 && |w'.committed| + w'.rem == |w.committed| + w.rem
    ensures |w'.pending| < w'.rem
    ensures w.committed <= w'.committed
  {
    if |f| < w.rem then Window(w.committed + Sanitise(f), w.rem - |f|, [])
    else Window(w.committed, w.rem, f[..w.rem - 1])
  }

  /** The window after the name-and-type field and the given compatible strings. */
  function Run(np: Node, cs: seq<seq<char>>, len: nat): (w: Window)
    requires len > 0
    ensures w.rem > 0 && |w.committed| + w.rem == len
    ensures |w.pending| < w.rem
    decreases |cs|
  {
    if cs == [] then Start(np, len)
    else Step(Run(np, cs[..|cs| - 1], len), Field(cs[|cs| - 1]))
  }

  /** Taking one more compatible string adds its field size to the total
      and one `Step` to the window. */
  lemma RunOneMore(np: Node, cs: seq<seq<char>>, i: nat, len: nat)
    requires i < |cs|
    ensures FieldsSize(cs[..i + 1]) == FieldsSize(cs[..i]) + 1 + |cs[i]|
    ensures len > 0 ==> Run(np, cs[..i + 1], len) == Step(Run(np, cs[..i], len), Field(cs[i]))
  {
    assert cs[..i + 1][..i] == cs[..i];
  }

  /** The C string a buffer of `len` > 0 bytes holds after the builder has run. */
  function Shown(np: Node, len: nat): seq<char>
    requires len > 0
  {
    var w := Run(np, np.compatible, len);
    w.committed + w.pending
  }

  /** The text always fits, terminator included, in the `len` bytes. */
  lemma ShownFits(np: Node, len: nat)
    requires len > 0
    ensures |Shown(np, len)| < len
  {
  }

  lemma {:induction false} RunNoNul(np: Node, cs: seq<seq<char>>, len: nat)
    requires len > 0
    requires NoNul(Prefix(np))
    requires forall i :: 0 <= i < |cs| ==> NoNul(cs[i])
    ensures NoNul(Run(np, cs, len).committed) && NoNul(Run(np, cs, len).pending)
    decreases |cs|
  {
    if cs != [] {
      RunNoNul(np, cs[..|cs| - 1], len);
      assert NoNul(Field(cs[|cs| - 1]));
    }
  }

  lemma ShownNoNul(np: Node, len: nat)
    requires len > 0 && WellFormed(np)
    ensures NoNul(Shown(np, len))
  {
    RunNoNul(np, np.compatible, len);
  }

  /** While everything so far fits, the window holds the untruncated text. */
  lemma {:induction false} RunUntruncated(np: Node, cs: seq<seq<char>>, len: nat)
    requires len > |Prefix(np)| + FieldsSize(cs)
    ensures Run(np, cs, len) == Window(Prefix(np) + Fields(cs), len - |Prefix(np)| - FieldsSize(cs), [])
    decreases |cs|
  {
    if cs != [] {
      var init := cs[..|cs| - 1];
      RunUntruncated(np, init, len);
      assert Prefix(np) + Fields(cs) == Prefix(np) + Fields(init) + Sanitise(Field(cs[|cs| - 1]));
    }
  }

  /** The buffer holds the whole modalias exactly when `len` exceeds its length. */
  lemma ShownIsModalias(np: Node, len: nat)
    requires len > 0
    ensures Shown(np, len) == ModaliasString(np) <==> len > FullLength(np)
  {
    ModaliasLength(np);
    if len > FullLength(np) {
      RunUntruncated(np, np.compatible, len);
    } else {
      ShownFits(np, len);
    }
  }

  /** Once the name-and-type field has been cut short, no compatible field
      fits any more. */
  lemma {:induction false} RunAfterPrefixTruncated(np: Node, cs: seq<seq<char>>, len: nat)
    requires 0 < len <= |Prefix(np)|
    ensures Run(np, cs, len) == Window(Prefix(np)[..len - 1], 1, [])
    decreases |cs|
  {
    if cs != [] {
      RunAfterPrefixTruncated(np, cs[..|cs| - 1], len);
    }
  }

  lemma ShownWhenPrefixTruncated(np: Node, len: nat)
    requires 0 < len <= |Prefix(np)|
    ensures Shown(np, len) == Prefix(np)[..len - 1]
  {
    RunAfterPrefixTruncated(np, np.compatible, len);
  }

  /** When the name-and-type field fits, the shown text starts with all of it. */
  lemma {:induction false} RunKeepsPrefix(np: Node, cs: seq<seq<char>>, len: nat)
    requires |Prefix(np)| < len
    ensures Prefix(np) <= Run(np, cs, len).committed
    decreases |cs|
  {
    if cs != [] {
      RunKeepsPrefix(np, cs[..|cs| - 1], len);
    }
  }

  lemma ShownStartsWithPrefix(np: Node, len: nat)
    requires |Prefix(np)| < len
    ensures Prefix(np) <= Shown(np, len)
  {
    RunKeepsPrefix(np, np.compatible, len);
  }

  /** The compatible strings that `keep` selects, in property order. */
  function Select(cs: seq<seq<char>>, keep: seq<bool>): seq<seq<char>>
    requires |keep| == |cs|
    decreases |cs|
  {
    if cs == [] then []
    else Select(cs[..|cs| - 1], keep[..|keep| - 1]) + (if keep[|keep| - 1] then [cs[|cs| - 1]] else [])
  }

  /** When the name-and-type field fits, the committed text is that field
      followed by the sanitised fields of an in-order selection of the
      compatible strings: fields are dropped whole, never reordered or cut. */
  lemma {:induction false} CommittedIsSelection(np: Node, cs: seq<seq<char>>, len: nat) returns (keep: seq<bool>)
    requires |Prefix(np)| < len
    ensures |keep| == |cs|
    ensures Run(np, cs, len).committed == Prefix(np) + Fields(Select(cs, keep))
    decreases |cs|
  {
    if cs == [] {
      keep := [];
    } else {
      var init := cs[..|cs| - 1];
      var last := cs[|cs| - 1];
      var before := CommittedIsSelection(np, init, len);
      var w := Run(np, init, len);
      keep := before + [|Field(last)| < w.rem];
      assert keep[..|keep| - 1] == before;
      var sel := Select(init, before);
      assert Run(np, cs, len) == Step(w, Field(last));
      if |Field(last)| < w.rem {
        assert Select(cs, keep) == sel + [last];
        assert (sel + [last])[..|sel|] == sel;
        assert Fields(sel + [last]) == Fields(sel) + Sanitise(Field(last));
      } else {
        assert Select(cs, keep) == sel;
      }
    }
  }

  /** Whatever follows the committed text is empty or a proper head of the
      last compatible field, unsanitised. */
  lemma PendingIsHeadOfLast(np: Node, cs: seq<seq<char>>, len: nat)
    requires len > 0
    ensures var p := Run(np, cs, len).pending;
      p == [] || (cs != [] && |p| < |Field(cs[|cs| - 1])| && p == Field(cs[|cs| - 1])[..|p|])
  {
  }

  /** The truncated text, described without the loop: the name-and-type
      field, the sanitised fields of an in-order selection of the compatible
      strings, and possibly a proper head of the last compatible field. */
  lemma ShownIsSelection(np: Node, len: nat) returns (keep: seq<bool>, head: seq<char>)
    requires |Prefix(np)| < len
    ensures |keep| == |np.compatible|
    ensures Shown(np, len) == Prefix(np) + Fields(Select(np.compatible, keep)) + head
    ensures head == [] || (np.compatible != [] && |head| < 1 + |np.compatible[|np.compatible| - 1]|
                           && head == Field(np.compatible[|np.compatible| - 1])[..|head|])
  {
    keep := CommittedIsSelection(np, np.compatible, len);
    PendingIsHeadOfLast(np, np.compatible, len);
    head := Run(np, np.compatible, len).pending;
  }
}
