/** The slice of `pathlib.PurePosixPath` the core relies on: equality, `name`,
    `stem`, `suffix`, `with_stem` and `relative_to`.

    A path is held already split, as `pathlib` splits it: whether it is
    anchored at `/`, and its non-empty components with every `.` dropped
    (`Path("./")` has no components at all). */
module Paths {
  import opened Results
  import opened Numerals

  datatype FilePath = FilePath(absolute: bool, parts: seq<string>)

  /** The final component, `""` for `/` and for `.`. */
  function Name(p: FilePath): (r: string)
    ensures p.parts != [] ==> r == p.parts[|p.parts| - 1]
  {
    if p.parts == [] then "" else p.parts[|p.parts| - 1]
  }

  /** Where `suffix` begins: the last dot, unless it leads or ends the name. */
  function SuffixStart(name: string): (i: nat)
    ensures i <= |name|
  {
    var k := LastDot(name);
    if 0 < k < |name| - 1 then k else |name|
  }

  /** The position of the last `.` in `name`, or `-1` when there is none. */
  function LastDot(name: string): (k: int)
    ensures -1 <= k < |name|
    ensures k >= 0 ==> name[k] == '.'
    ensures forall j :: k < j < |name| ==> name[j] != '.'
    decreases |name|
  {
    if name == [] then -1
    else if name[|name| - 1] == '.' then |name| - 1
    else LastDot(name[..|name| - 1])
  }

  function Suffix(name: string): (r: string)
    ensures r == [] || r[0] == '.'
  {
    name[SuffixStart(name)..]
  }

  function Stem(name: string): (r: string)
    ensures r + Suffix(name) == name
  {
    name[..SuffixStart(name)]
  }

  /** `with_stem(stem)`: the same path with its final component renamed to
      `stem + suffix`; a `ValueError` when the path has no final component or
      the new name is not a single component. */
  function WithStem(p: FilePath, stem: string): (r: Result<FilePath>)
    ensures r.Success? <==> Name(p) != "" && stem + Suffix(Name(p)) != "" && '/' !in stem + Suffix(Name(p)) && stem + Suffix(Name(p)) != "."
    ensures r.Success? ==>
      r.value.absolute == p.absolute && r.value.parts == p.parts[..|p.parts| - 1] + [stem + Suffix(Name(p))]
  {
    var name := stem + Suffix(Name(p));
    if Name(p) == "" || name == "" || '/' in name || name == "." then Failure(PathError)
    else Success(FilePath(p.absolute, p.parts[..|p.parts| - 1] + [name]))
  }

  /** The file that batch `index` of a split save goes to: the path itself for
      the first batch, otherwise its stem followed by `index + 1`. */
  function BatchPath(p: FilePath, index: nat): (r: Result<FilePath>)
    ensures index == 0 ==> r == Success(p)
  {
    if index == 0 then Success(p)
    else WithStem(p, Stem(Name(p)) + NatToString(index + 1))
  }

  /** Two batches of one save never share a file. */
  lemma BatchPathsDistinct(p: FilePath, i: nat, j: nat)
    requires i != j && BatchPath(p, i).Success? && BatchPath(p, j).Success?
    ensures BatchPath(p, i).value != BatchPath(p, j).value
  {
    var name := Name(p);
    var stem, suffix := Stem(name), Suffix(name);
    if i == 0 || j == 0 {
      var k := if i == 0 then j else i;
      var q := BatchPath(p, k).value;
      assert Name(q) == stem + NatToString(k + 1) + suffix;
      assert |Name(q)| > |name|;
    } else {
      var a, b := BatchPath(p, i).value, BatchPath(p, j).value;
      var ni, nj := NatToString(i + 1), NatToString(j + 1);
      if a == b {
        assert Name(a) == stem + ni + suffix && Name(b) == stem + nj + suffix;
        assert |ni| == |nj|;
        assert ni == Name(a)[|stem|..|stem| + |ni|];
        assert nj == Name(b)[|stem|..|stem| + |nj|];
        NatToStringInjective(i + 1, j + 1);
      }
    }
  }

  /** `relative_to(root)`: the components of `p` below `root`, when `root` is
      `p` itself or one of its parents; a `ValueError` otherwise. */
  function RelativeTo(p: FilePath, root: FilePath): (r: Result<seq<string>>)
    ensures r.Success? <==> p.absolute == root.absolute && root.parts <= p.parts
    ensures r.Success? ==> root.parts + r.value == p.parts
  {
    if p.absolute == root.absolute && root.parts <= p.parts then Success(p.parts[|root.parts|..])
    else Failure(PathError)
  }

  /** The second file of a save to `.test/sample.xml` is `.test/sample2.xml`. */
  lemma SecondBatchExample()
    ensures BatchPath(FilePath(false, [".test", "sample.xml"]), 1)
         == Success(FilePath(false, [".test", "sample2.xml"]))
  {
    var name := "sample.xml";
    assert LastDot("sample.") == 6;
    assert "sample.x"[..7] == "sample.";
    assert LastDot("sample.x") == 6;
    assert "sample.xm"[..8] == "sample.x";
    assert LastDot("sample.xm") == 6;
    assert name[..9] == "sample.xm";
    assert LastDot(name) == 6;
    assert Stem(name) == "sample" && Suffix(name) == ".xml";
    assert NatToString(2) == "2";
    assert "sample" + "2" + ".xml" == "sample2.xml";
    assert '/' !in "sample2.xml";
    assert [".test", "sample.xml"][..1] + ["sample2.xml"] == [".test", "sample2.xml"];
  }
}
