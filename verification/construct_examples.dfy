/** The worked examples of the string-segmentation solvers: "skateboard" cannot be built from
    its bank, and "purple" can be built in exactly two ways. Each target is worked out one suffix
    at a time, and each suffix one bank entry at a time, in the order the solvers visit them. */
module ConstructExamples {
  import opened JavaInt
  import opened Construct

  /** A word that differs from the target at some position is not a prefix of it. */
  lemma DiffersAt(w: string, t: string, k: nat)
    requires k < |w| && k < |t| && w[k] != t[k]
    ensures !(w <= t)
  {
  }

  /** A bank entry that is not a prefix of the target adds nothing to the count. */
  lemma CountSkip(t: string, bank: seq<string>, i: nat, k: nat)
    requires NonEmptyWords(bank) && i < |bank|
    requires k < |bank[i]| && k < |t| && bank[i][k] != t[k]
    ensures CountUpTo(t, bank, i + 1) == CountUpTo(t, bank, i)
  {
    DiffersAt(bank[i], t, k);
  }

  /** A bank entry that is a prefix of the target adds the count of the rest. */
  lemma CountTake(t: string, bank: seq<string>, i: nat, rest: string)
    requires NonEmptyWords(bank) && i < |bank| && t == bank[i] + rest
    ensures CountUpTo(t, bank, i + 1) == CountUpTo(t, bank, i) + CountConstruct(rest, bank)
  {
    assert bank[i] <= t && t[|bank[i]|..] == rest;
  }

  /** A bank entry that is not a prefix of the target adds nothing to the list. */
  lemma AllSkip(t: string, bank: seq<string>, i: nat, k: nat)
    requires NonEmptyWords(bank) && i < |bank|
    requires k < |bank[i]| && k < |t| && bank[i][k] != t[k]
    ensures AllUpTo(t, bank, i + 1) == AllUpTo(t, bank, i)
  {
    DiffersAt(bank[i], t, k);
    assert AllBranch(t, bank, i) == [];
  }

  /** A bank entry that is a prefix of the target appends the decompositions of the rest, with the
      entry in front. */
  lemma AllTake(t: string, bank: seq<string>, i: nat, rest: string)
    requires NonEmptyWords(bank) && i < |bank| && t == bank[i] + rest
    ensures AllUpTo(t, bank, i + 1) == AllUpTo(t, bank, i) + PrependAll(bank[i], AllConstruct(rest, bank))
  {
    assert bank[i] <= t && t[|bank[i]|..] == rest;
  }

  /** A prefix entry whose rest has exactly one decomposition appends that one, with the entry in
      front. */
  lemma AllTakeOne(t: string, bank: seq<string>, i: nat, rest: string, ws: seq<string>)
    requires NonEmptyWords(bank) && i < |bank| && t == bank[i] + rest
    requires AllConstruct(rest, bank) == [ws]
    ensures AllUpTo(t, bank, i + 1) == AllUpTo(t, bank, i) + [[bank[i]] + ws]
  {
    AllTake(t, bank, i, rest);
  }

  /** A prefix entry whose rest has no decomposition adds nothing. */
  lemma AllTakeNone(t: string, bank: seq<string>, i: nat, rest: string)
    requires NonEmptyWords(bank) && i < |bank| && t == bank[i] + rest
    requires AllConstruct(rest, bank) == []
    ensures AllUpTo(t, bank, i + 1) == AllUpTo(t, bank, i)
  {
    AllTake(t, bank, i, rest);
  }

  /** The bank of the "skateboard" example. */
  function SkateBank(): (bank: seq<string>)
    ensures NonEmptyWords(bank)
  {
    ["bo", "rd", "ate", "t", "ska", "sk", "boar"]
  }

  // ---------------------------------------------------------------- skateboard

  lemma SkateCountEboard()
    ensures CountConstruct("eboard", SkateBank()) == 0
  {
    var bank := SkateBank();
    CountSkip("eboard", bank, 0, 0);
    assert CountUpTo("eboard", bank, 1) == 0;
    CountSkip("eboard", bank, 1, 0);
    assert CountUpTo("eboard", bank, 2) == 0;
    CountSkip("eboard", bank, 2, 0);
    assert CountUpTo("eboard", bank, 3) == 0;
    CountSkip("eboard", bank, 3, 0);
    assert CountUpTo("eboard", bank, 4) == 0;
    CountSkip("eboard", bank, 4, 0);
    assert CountUpTo("eboard", bank, 5) == 0;
    CountSkip("eboard", bank, 5, 0);
    assert CountUpTo("eboard", bank, 6) == 0;
    CountSkip("eboard", bank, 6, 0);
    assert CountUpTo("eboard", bank, 7) == 0;
  }

  lemma SkateCountArd()
    ensures CountConstruct("ard", SkateBank()) == 0
  {
    var bank := SkateBank();
    CountSkip("ard", bank, 0, 0);
    assert CountUpTo("ard", bank, 1) == 0;
    CountSkip("ard", bank, 1, 0);
    assert CountUpTo("ard", bank, 2) == 0;
    CountSkip("ard", bank, 2, 1);
    assert CountUpTo("ard", bank, 3) == 0;
    CountSkip("ard", bank, 3, 0);
    assert CountUpTo("ard", bank, 4) == 0;
    CountSkip("ard", bank, 4, 0);
    assert CountUpTo("ard", bank, 5) == 0;
    CountSkip("ard", bank, 5, 0);
    assert CountUpTo("ard", bank, 6) == 0;
    CountSkip("ard", bank, 6, 0);
    assert CountUpTo("ard", bank, 7) == 0;
  }

  lemma SkateCountD()
    ensures CountConstruct("d", SkateBank()) == 0
  {
    var bank := SkateBank();
    CountSkip("d", bank, 0, 0);
    assert CountUpTo("d", bank, 1) == 0;
    CountSkip("d", bank, 1, 0);
    assert CountUpTo("d", bank, 2) == 0;
    CountSkip("d", bank, 2, 0);
    assert CountUpTo("d", bank, 3) == 0;
    CountSkip("d", bank, 3, 0);
    assert CountUpTo("d", bank, 4) == 0;
    CountSkip("d", bank, 4, 0);
    assert CountUpTo("d", bank, 5) == 0;
    CountSkip("d", bank, 5, 0);
    assert CountUpTo("d", bank, 6) == 0;
    CountSkip("d", bank, 6, 0);
    assert CountUpTo("d", bank, 7) == 0;
  }

  lemma SkateCountBoard()
    ensures CountConstruct("board", SkateBank()) == 0
  {
    var bank := SkateBank();
    SkateCountArd();
    SkateCountD();
    CountTake("board", bank, 0, "ard");
    assert CountUpTo("board", bank, 1) == 0;
    CountSkip("board", bank, 1, 0);
    assert CountUpTo("board", bank, 2) == 0;
    CountSkip("board", bank, 2, 0);
    assert CountUpTo("board", bank, 3) == 0;
    CountSkip("board", bank, 3, 0);
    assert CountUpTo("board", bank, 4) == 0;
    CountSkip("board", bank, 4, 0);
    assert CountUpTo("board", bank, 5) == 0;
    CountSkip("board", bank, 5, 0);
    assert CountUpTo("board", bank, 6) == 0;
    CountTake("board", bank, 6, "d");
    assert CountUpTo("board", bank, 7) == 0;
  }

  lemma SkateCountTeboard()
    ensures CountConstruct("teboard", SkateBank()) == 0
  {
    var bank := SkateBank();
    SkateCountEboard();
    CountSkip("teboard", bank, 0, 0);
    assert CountUpTo("teboard", bank, 1) == 0;
    CountSkip("teboard", bank, 1, 0);
    assert CountUpTo("teboard", bank, 2) == 0;
    CountSkip("teboard", bank, 2, 0);
    assert CountUpTo("teboard", bank, 3) == 0;
    CountTake("teboard", bank, 3, "eboard");
    assert CountUpTo("teboard", bank, 4) == 0;
    CountSkip("teboard", bank, 4, 0);
    assert CountUpTo("teboard", bank, 5) == 0;
    CountSkip("teboard", bank, 5, 0);
    assert CountUpTo("teboard", bank, 6) == 0;
    CountSkip("teboard", bank, 6, 0);
    assert CountUpTo("teboard", bank, 7) == 0;
  }

  lemma SkateCountAteboard()
    ensures CountConstruct("ateboard", SkateBank()) == 0
  {
    var bank := SkateBank();
    SkateCountBoard();
    CountSkip("ateboard", bank, 0, 0);
    assert CountUpTo("ateboard", bank, 1) == 0;
    CountSkip("ateboard", bank, 1, 0);
    assert CountUpTo("ateboard", bank, 2) == 0;
    CountTake("ateboard", bank, 2, "board");
    assert CountUpTo("ateboard", bank, 3) == 0;
    CountSkip("ateboard", bank, 3, 0);
    assert CountUpTo("ateboard", bank, 4) == 0;
    CountSkip("ateboard", bank, 4, 0);
    assert CountUpTo("ateboard", bank, 5) == 0;
    CountSkip("ateboard", bank, 5, 0);
    assert CountUpTo("ateboard", bank, 6) == 0;
    CountSkip("ateboard", bank, 6, 0);
    assert CountUpTo("ateboard", bank, 7) == 0;
  }

  /** Every way into "skateboard" ("ska", then "sk") ends in a dead end: it has no decomposition. */
  lemma SkateCountSkateboard()
    ensures CountConstruct("skateboard", SkateBank()) == 0
  {
    var bank := SkateBank();
    SkateCountTeboard();
    SkateCountAteboard();
    CountSkip("skateboard", bank, 0, 0);
    assert CountUpTo("skateboard", bank, 1) == 0;
    CountSkip("skateboard", bank, 1, 0);
    assert CountUpTo("skateboard", bank, 2) == 0;
    CountSkip("skateboard", bank, 2, 0);
    assert CountUpTo("skateboard", bank, 3) == 0;
    CountSkip("skateboard", bank, 3, 0);
    assert CountUpTo("skateboard", bank, 4) == 0;
    CountTake("skateboard", bank, 4, "teboard");
    assert CountUpTo("skateboard", bank, 5) == 0;
    CountTake("skateboard", bank, 5, "ateboard");
    assert CountUpTo("skateboard", bank, 6) == 0;
    CountSkip("skateboard", bank, 6, 0);
    assert CountUpTo("skateboard", bank, 7) == 0;
  }

  lemma SkateboardNotConstructible()
    ensures !CanConstruct("skateboard", SkateBank())
    ensures forall ws :: !IsDecomposition(ws, "skateboard", SkateBank())
  {
    SkateCountSkateboard();
    CanConstructIffCountPositive("skateboard", SkateBank());
    CanConstructIffDecomposition("skateboard", SkateBank());
  }

  /** canConstruct("skateboard", ...) computed by the public method. */
  method SkateboardExample() returns (r: bool)
    ensures !r
  {
    SkateboardNotConstructible();
    r := ComputeCanConstruct("skateboard", SkateBank());
  }

  /** The bank of the "purple" example. */
  function PurpleBank(): (bank: seq<string>)
    ensures NonEmptyWords(bank)
  {
    ["purp", "p", "ur", "le", "purpl"]
  }

  // ---------------------------------------------------------------- purple

  lemma PurpleCountE()
    ensures CountConstruct("e", PurpleBank()) == 0
  {
    var bank := PurpleBank();
    CountSkip("e", bank, 0, 0);
    assert CountUpTo("e", bank, 1) == 0;
    CountSkip("e", bank, 1, 0);
    assert CountUpTo("e", bank, 2) == 0;
    CountSkip("e", bank, 2, 0);
    assert CountUpTo("e", bank, 3) == 0;
    CountSkip("e", bank, 3, 0);
    assert CountUpTo("e", bank, 4) == 0;
    CountSkip("e", bank, 4, 0);
    assert CountUpTo("e", bank, 5) == 0;
  }

  lemma PurpleCountLe()
    ensures CountConstruct("le", PurpleBank()) == 1
  {
    var bank := PurpleBank();
    CountSkip("le", bank, 0, 0);
    assert CountUpTo("le", bank, 1) == 0;
    CountSkip("le", bank, 1, 0);
    assert CountUpTo("le", bank, 2) == 0;
    CountSkip("le", bank, 2, 0);
    assert CountUpTo("le", bank, 3) == 0;
    CountTake("le", bank, 3, "");
    assert CountUpTo("le", bank, 4) == 1;
    CountSkip("le", bank, 4, 0);
    assert CountUpTo("le", bank, 5) == 1;
  }

  lemma PurpleCountPle()
    ensures CountConstruct("ple", PurpleBank()) == 1
  {
    var bank := PurpleBank();
    PurpleCountLe();
    CountSkip("ple", bank, 0, 1);
    assert CountUpTo("ple", bank, 1) == 0;
    CountTake("ple", bank, 1, "le");
    assert CountUpTo("ple", bank, 2) == 1;
    CountSkip("ple", bank, 2, 0);
    assert CountUpTo("ple", bank, 3) == 1;
    CountSkip("ple", bank, 3, 0);
    assert CountUpTo("ple", bank, 4) == 1;
    CountSkip("ple", bank, 4, 1);
    assert CountUpTo("ple", bank, 5) == 1;
  }

  lemma PurpleCountUrple()
    ensures CountConstruct("urple", PurpleBank()) == 1
  {
    var bank := PurpleBank();
    PurpleCountPle();
    CountSkip("urple", bank, 0, 0);
    assert CountUpTo("urple", bank, 1) == 0;
    CountSkip("urple", bank, 1, 0);
    assert CountUpTo("urple", bank, 2) == 0;
    CountTake("urple", bank, 2, "ple");
    assert CountUpTo("urple", bank, 3) == 1;
    CountSkip("urple", bank, 3, 0);
    assert CountUpTo("urple", bank, 4) == 1;
    CountSkip("urple", bank, 4, 0);
    assert CountUpTo("urple", bank, 5) == 1;
  }

  lemma PurpleCountPurple()
    ensures CountConstruct("purple", PurpleBank()) == 2
  {
    var bank := PurpleBank();
    PurpleCountLe();
    PurpleCountUrple();
    PurpleCountE();
    CountTake("purple", bank, 0, "le");
    assert CountUpTo("purple", bank, 1) == 1;
    CountTake("purple", bank, 1, "urple");
    assert CountUpTo("purple", bank, 2) == 2;
    CountSkip("purple", bank, 2, 0);
    assert CountUpTo("purple", bank, 3) == 2;
    CountSkip("purple", bank, 3, 0);
    assert CountUpTo("purple", bank, 4) == 2;
    CountTake("purple", bank, 4, "e");
    assert CountUpTo("purple", bank, 5) == 2;
  }

  lemma PurpleAllE()
    ensures AllConstruct("e", PurpleBank()) == []
  {
    var bank := PurpleBank();
    AllSkip("e", bank, 0, 0);
    assert AllUpTo("e", bank, 1) == [];
    AllSkip("e", bank, 1, 0);
    assert AllUpTo("e", bank, 2) == [];
    AllSkip("e", bank, 2, 0);
    assert AllUpTo("e", bank, 3) == [];
    AllSkip("e", bank, 3, 0);
    assert AllUpTo("e", bank, 4) == [];
    AllSkip("e", bank, 4, 0);
    assert AllUpTo("e", bank, 5) == [];
  }

  lemma PurpleAllLe()
    ensures AllConstruct("le", PurpleBank()) == [["le"]]
  {
    var bank := PurpleBank();
    AllSkip("le", bank, 0, 0);
    assert AllUpTo("le", bank, 1) == [];
    AllSkip("le", bank, 1, 0);
    assert AllUpTo("le", bank, 2) == [];
    AllSkip("le", bank, 2, 0);
    assert AllUpTo("le", bank, 3) == [];
    AllTakeOne("le", bank, 3, "", []);
    assert ["le"] + [] == ["le"];
    assert AllUpTo("le", bank, 4) == [["le"]];
    AllSkip("le", bank, 4, 0);
    assert AllUpTo("le", bank, 5) == [["le"]];
  }

  lemma PurpleAllPle()
    ensures AllConstruct("ple", PurpleBank()) == [["p", "le"]]
  {
    var bank := PurpleBank();
    PurpleAllLe();
    AllSkip("ple", bank, 0, 1);
    assert AllUpTo("ple", bank, 1) == [];
    AllTakeOne("ple", bank, 1, "le", ["le"]);
    assert ["p"] + ["le"] == ["p", "le"];
    assert AllUpTo("ple", bank, 2) == [["p", "le"]];
    AllSkip("ple", bank, 2, 0);
    assert AllUpTo("ple", bank, 3) == [["p", "le"]];
    AllSkip("ple", bank, 3, 0);
    assert AllUpTo("ple", bank, 4) == [["p", "le"]];
    AllSkip("ple", bank, 4, 1);
    assert AllUpTo("ple", bank, 5) == [["p", "le"]];
  }

  lemma PurpleAllUrple()
    ensures AllConstruct("urple", PurpleBank()) == [["ur", "p", "le"]]
  {
    var bank := PurpleBank();
    PurpleAllPle();
    AllSkip("urple", bank, 0, 0);
    assert AllUpTo("urple", bank, 1) == [];
    AllSkip("urple", bank, 1, 0);
    assert AllUpTo("urple", bank, 2) == [];
    AllTakeOne("urple", bank, 2, "ple", ["p", "le"]);
    assert ["ur"] + ["p", "le"] == ["ur", "p", "le"];
    assert AllUpTo("urple", bank, 3) == [["ur", "p", "le"]];
    AllSkip("urple", bank, 3, 0);
    assert AllUpTo("urple", bank, 4) == [["ur", "p", "le"]];
    AllSkip("urple", bank, 4, 0);
    assert AllUpTo("urple", bank, 5) == [["ur", "p", "le"]];
  }

  lemma PurpleAllPurple()
    ensures AllConstruct("purple", PurpleBank()) == [["purp", "le"], ["p", "ur", "p", "le"]]
  {
    var bank := PurpleBank();
    PurpleAllLe();
    PurpleAllUrple();
    PurpleAllE();
    AllTakeOne("purple", bank, 0, "le", ["le"]);
    assert ["purp"] + ["le"] == ["purp", "le"];
    assert AllUpTo("purple", bank, 1) == [["purp", "le"]];
    AllTakeOne("purple", bank, 1, "urple", ["ur", "p", "le"]);
    assert ["p"] + ["ur", "p", "le"] == ["p", "ur", "p", "le"];
    assert AllUpTo("purple", bank, 2) == [["purp", "le"], ["p", "ur", "p", "le"]];
    AllSkip("purple", bank, 2, 0);
    assert AllUpTo("purple", bank, 3) == [["purp", "le"], ["p", "ur", "p", "le"]];
    AllSkip("purple", bank, 3, 0);
    assert AllUpTo("purple", bank, 4) == [["purp", "le"], ["p", "ur", "p", "le"]];
    AllTakeNone("purple", bank, 4, "e");
    assert AllUpTo("purple", bank, 5) == [["purp", "le"], ["p", "ur", "p", "le"]];
  }

  /** countConstruct("purple", ...) computed by the public method: 2, from "purp" + "le" and
      "p" + "ur" + "p" + "le". */
  method PurpleCountExample() returns (r: int)
    ensures r == 2
  {
    PurpleCountPurple();
    r := ComputeCountConstruct("purple", PurpleBank());
    IntInRange(2);
  }

  /** allConstruct("purple", ...) computed by the public method, in the order the bank visits them. */
  method PurpleAllExample() returns (r: seq<seq<string>>)
    ensures r == [["purp", "le"], ["p", "ur", "p", "le"]]
  {
    PurpleAllPurple();
    r := ComputeAllConstruct("purple", PurpleBank());
  }
}
