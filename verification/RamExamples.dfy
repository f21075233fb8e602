/**
  Short sessions of the RAM file system from an empty volume, in which a write leaves a hole and what
  follows goes wrong. The exact conditions are in module RamFile.
*/
module RamExamples {
  import opened Bytes
  import opened RamFile
  import opened RamFs

  /** `create a; write a "7"` at offset 2 */
  function Holed(): Volume {
    Step(Step(map[], Create("a", 0x8000)).0, WriteFile("a", [7], 2)).0
  }

  lemma HoledIs()
    ensures Holed() == map["a" := map[2 := 7]]
  {
    var v := Step(map[], Create("a", 0x8000)).0;
    assert v == map["a" := map[]];
    assert Written(map[], 2, [7]) == Set(Written(map[], 2, []), 2, 7);
  }

  /** The file has one byte, at offset 2, so its size is one and it is not a string of bytes. */
  lemma WriteLeavesHole()
    ensures "a" in Holed() && |Holed()["a"]| == 1 && !Dense(Holed()["a"])
  {
    HoledIs();
    GapNotDense(Holed()["a"], 0, 2);
  }

  /** Reading one byte doubles the size. */
  lemma ReadLengthens()
    ensures var r := Step(Holed(), ReadFile("a", 1, 0));
            r.1 == Reply(1, [0]) && "a" in r.0 && |r.0["a"]| == 2
  {
    HoledIs();
    var m := Holed()["a"];
    assert Touched(m, 0, 1) == Set(Touched(m, 0, 0), 0, 0);
    assert Span(m, 0, 1) == Span(m, 0, 0) + [Content(m, 0)];
  }

  /** Truncating to nothing leaves the file as it is. */
  lemma ShrinkDoesNothing()
    ensures Step(Holed(), Truncate("a", 0)).0 == Holed()
  {
    HoledIs();
  }

  /** Truncating to three bytes leaves two, and the one that was written is lost. */
  lemma GrowLosesByte()
    ensures var v := Step(Holed(), Truncate("a", 3)).0;
            "a" in v && |v["a"]| == 2 && Content(Holed()["a"], 2) == 7 && Content(v["a"], 2) == 0
  {
    HoledIs();
    var m := Holed()["a"];
    GrowContent(m, 3, 2);
    WrittenIs(m, 1, Zeros(2));
    var m' := Truncated(m, 3);
    assert m'.Keys == {1, 2};
    assert |m'| == |m'.Keys|;
  }

  /** `create a; write a "5"` at offset 0, `write a "7"` at offset 2 */
  function Gapped(): Volume {
    Step(Step(Step(map[], Create("a", 0x8000)).0, WriteFile("a", [5], 0)).0, WriteFile("a", [7], 2)).0
  }

  lemma GappedIs()
    ensures "a" in Gapped() && Gapped()["a"] == map[0 := 5, 2 := 7]
  {
    assert Step(map[], Create("a", 0x8000)).0["a"] == map[];
    assert Written(map[], 0, [5]) == Set(Written(map[], 0, []), 0, 5) == map[0 := 5];
    assert Written(map[0 := 5], 2, [7]) == Set(Written(map[0 := 5], 2, []), 2, 7);
  }

  lemma HoleRead(m: Cells)
    requires m == map[0 := 5, 2 := 7]
    ensures |m| == 2 && Read(m, 1, 1).1 == 1 && Read(m, 1, 1).2 == [0] && Read(m, 1, 1).0.Keys == {0, 1, 2}
  {
    ReadSparse(m, 1, 1);
    assert |Read(m, 1, 1).2| == 1;
    assert forall k: nat :: k in Read(m, 1, 1).0 <==> k in {0, 1, 2};
  }

  /** Reading one byte at the hole of a file with bytes at 0 and 2 returns a zero, and fills the hole. */
  lemma ReadFillsHole()
    ensures var r := Step(Gapped(), ReadFile("a", 1, 1));
            "a" in Gapped() && |Gapped()["a"]| == 2 && r.1 == Reply(1, [0]) && "a" in r.0 && r.0["a"].Keys == {0, 1, 2}
  {
    GappedIs();
    HoleRead(Gapped()["a"]);
  }

  /** `create /a; create /b`: two files. */
  lemma TwoPaths()
    ensures var v := Step(map[], Create(StripLeadingSlash("/a"), 0x8000)).0;
            StripLeadingSlash("/a") in v && StripLeadingSlash("/b") !in v
            && Step(v, Create(StripLeadingSlash("/b"), 0x8000)).1.rc == 0
  {
    PathsLead("a");
    PathsLead("b");
  }
}
