/** The check of scripts/mutations/check_anchors.py that a replacement only deletes lines. */
module LineDeletion {
  import opened Search
  import opened Subsequences
  import opened Whitespace

  function Lines(text: string): (lines: seq<string>)
    ensures lines != []
  {
    Split(text, "\n")
  }

  /** The first elements decide greedily: taking the first match never loses an embedding. */
  lemma GreedyStep<T>(s: seq<T>, t: seq<T>)
    requires s != []
    ensures IsSubsequence(s, t) <==>
            t != [] && if s[0] == t[0] then IsSubsequence(s[1..], t[1..]) else IsSubsequence(s, t[1..])
  {
    if IsSubsequence(s, t) {
      DropFirst(s, t);
    } else if t != [] {
      assert t == [t[0]] + t[1..] && s == [s[0]] + s[1..];
      if s[0] == t[0] {
        if IsSubsequence(s[1..], t[1..]) {
          PrependBoth(s[1..], t[1..], t[0]);
        }
      } else if IsSubsequence(s, t[1..]) {
        PrependRight(s, t[1..], t[0]);
      }
    }
  }

  /** `is_line_deletion`: one pass over the old lines, never going back. */
  method IsLineDeletion(o: string, n: string) returns (deletion: bool)
    ensures deletion <==> IsSubsequence(Lines(n), Lines(o)) && n != o
  {
    var oLines, nLines := Lines(o), Lines(n);
    var i := 0;
    for k := 0 to |nLines|
      invariant 0 <= i <= |oLines|
      invariant IsSubsequence(nLines, oLines) <==> IsSubsequence(nLines[k..], oLines[i..])
    {
      var found := false;
      while i < |oLines|
        invariant 0 <= i <= |oLines| && !found
        invariant IsSubsequence(nLines, oLines) <==> IsSubsequence(nLines[k..], oLines[i..])
      {
        GreedyStep(nLines[k..], oLines[i..]);
        assert nLines[k..][1..] == nLines[k + 1..] && oLines[i..][1..] == oLines[i + 1..];
        if oLines[i] == nLines[k] {
          i := i + 1;
          found := true;
          break;
        }
        i := i + 1;
      }
      if !found {
        GreedyStep(nLines[k..], oLines[i..]);
        return false;
      }
    }
    assert nLines[|nLines|..] == [];
    EmptyIsSubsequence(oLines[i..]);
    NotLonger(nLines, oLines);
    JoinSplit(o, "\n");
    JoinSplit(n, "\n");
    deletion := |nLines| < |oLines|;
  }

  /** The white space a text begins with, as far as its first line goes. */
  function Indent(text: string): (r: string)
    ensures forall c :: c in r ==> IsPythonSpace(c) && c != '\n'
    ensures r <= text
    ensures |r| < |text| && text[|r|] != '\n' ==> !IsPythonSpace(text[|r|])
  {
    var head := Lines(text)[0];
    FirstLineIsPrefix(text);
    head[..|head| - |TrimLeft(head, IsPythonSpace)|]
  }

  lemma FirstLineIsPrefix(text: string)
    ensures Lines(text)[0] <= text
    ensures '\n' !in Lines(text)[0]
    ensures |Lines(text)[0]| < |text| ==> text[|Lines(text)[0]|] == '\n'
  {
    PartsAreClean(text, "\n", 0);
    SingleEndsAt(Lines(text)[0], '\n');
    var found := Find("\n", text);
    if found.Some? {
      assert text[found.value..found.value + 1][0] == '\n';
    }
  }

  /** The name of the one dimension that is compared. */
  const INDENTATION := "\U{7F29}\U{8FDB}"

  /** `_shape_mismatch`: only the indentation is compared, and never for deleted lines. */
  method ShapeMismatch(o: string, n: string) returns (bad: seq<string>)
    ensures IsSubsequence(Lines(n), Lines(o)) ==> bad == []
    ensures !IsSubsequence(Lines(n), Lines(o)) ==>
              bad == if Indent(o) == Indent(n) then [] else ["\U{7F29}\U{8FDB}"]
  {
    var deletion := IsLineDeletion(o, n);
    if deletion {
      return [];
    }
    bad := [];
    if Indent(o) != Indent(n) {
      bad := bad + [INDENTATION];
    }
  }
}
