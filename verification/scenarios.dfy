/** Concrete nodes: the expected modalias strings, and two consequences of
    skipping a compatible field that does not fit in a short buffer. */
module Scenarios {
  import opened CStrings
  import opened Modalias

  /** A node without compatible strings yields the name-and-type field alone. */
  lemma NoCompatible()
    ensures ModaliasString(Node("uart@1000", "serial", [])) == "of:Nuart@1000Tserial"
    ensures FullLength(Node("uart@1000", "serial", [])) == 20
  {
  }

  /** Spaces in a compatible string become underscores, one for one. */
  lemma SpaceSubstitution()
    ensures Sanitise(Field("acme,foo bar")) == "Cacme,foo_bar"
    ensures |Sanitise(Field("acme,foo bar"))| == |Field("acme,foo bar")|
  {
    assert Sanitise(Field("acme,foo bar"))[9] == '_';
  }

  /** A device type printed as the empty string leaves 'T' directly before the first 'C'. */
  lemma EmptyDeviceType()
    ensures ModaliasString(Node("n", "", ["acme,chip-v1", "acme,chip"])) == "of:NnTCacme,chip-v1Cacme,chip"
  {
    var cs: seq<seq<char>> := ["acme,chip-v1", "acme,chip"];
    assert cs[..1] == ["acme,chip-v1"];
    assert cs[..1][..0] == [];
    assert Sanitise(Field("acme,chip-v1")) == Field("acme,chip-v1");
    assert Sanitise(Field("acme,chip")) == Field("acme,chip");
    assert Fields(cs[..1]) == "Cacme,chip-v1";
    assert Fields(cs) == Fields(cs[..1]) + "Cacme,chip";
  }

  /** A field too long for the remaining length is skipped, yet a shorter one
      after it is still written. */
  lemma SkippedFieldThenFit()
    ensures Shown(Node("a", "", ["xxxxxxxx", "y"]), 9) == "of:NaTCy"
  {
    var np := Node("a", "", ["xxxxxxxx", "y"]);
    var cs := np.compatible;
    assert cs[..1] == ["xxxxxxxx"] && cs[..1][..0] == [];
    assert Sanitise(Field("y")) == "Cy";
    assert Run(np, cs[..1], 9) == Window("of:NaT", 3, "Cx");
  }

  lemma SkippedFieldModalias()
    ensures ModaliasString(Node("a", "", ["xxxxxxxx", "y"])) == "of:NaTCxxxxxxxxCy"
  {
    var cs: seq<seq<char>> := ["xxxxxxxx", "y"];
    assert cs[..1] == ["xxxxxxxx"] && cs[..1][..0] == [];
    assert Sanitise(Field("xxxxxxxx")) == "Cxxxxxxxx";
    assert Sanitise(Field("y")) == "Cy";
    assert Fields(cs[..1]) == "Cxxxxxxxx";
  }

  /** So a truncated modalias need not be a prefix of the full one. */
  lemma TruncatedNotPrefix()
    ensures !(Shown(Node("a", "", ["xxxxxxxx", "y"]), 9) <= ModaliasString(Node("a", "", ["xxxxxxxx", "y"])))
  {
    SkippedFieldThenFit();
    SkippedFieldModalias();
    var shown := Shown(Node("a", "", ["xxxxxxxx", "y"]), 9);
    assert shown[7] == 'y';
  }

  /** When the last field does not fit, the head the formatter wrote stays in
      the buffer unsanitised, spaces included. */
  lemma UnsanitisedHead()
    ensures Shown(Node("a", "", ["b c d"]), 10) == "of:NaTCb "
    ensures ModaliasString(Node("a", "", ["b c d"])) == "of:NaTCb_c_d"
  {
    var np := Node("a", "", ["b c d"]);
    var cs := np.compatible;
    assert cs[..0] == [];
    assert Prefix(np) == "of:NaT";
    assert Run(np, cs[..0], 10) == Window("of:NaT", 4, []);
    assert Field("b c d")[..3] == "Cb ";
    assert Run(np, cs, 10) == Window("of:NaT", 4, "Cb ");
    assert Sanitise(Field("b c d")) == "Cb_c_d";
    assert Fields(cs) == "Cb_c_d";
  }
}
