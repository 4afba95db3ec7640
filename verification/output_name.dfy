/**
 `suggest_output_filename`: the first of `output1.mp4`, `output2.mp4`, ...
 that does not exist in a directory. The directory's contents at call time
 are the finite set of its entry names.
 */
module OutputName {
  import opened Strings

  const BaseName: string := "output"
  const Extension: string := ".mp4"

  /** `f"{base_name}{i}{extension}"` */
  function CandidateName(i: nat): (name: string)
    ensures |BaseName| + |Extension| < |name|
    ensures name[..|BaseName|] == BaseName && EndsWith(name, Extension)
    ensures AllDigits(name[|BaseName|..|name| - |Extension|])
    ensures ParseDecimal(name[|BaseName|..|name| - |Extension|]) == i
    ensures name[|BaseName|] == '0' <==> i == 0
    ensures i == 0 ==> |name| == |BaseName| + 1 + |Extension|
  {
    var name := BaseName + Decimal(i) + Extension;
    assert name[|BaseName|..|name| - |Extension|] == Decimal(i);
    DecimalRoundTrip(i);
    name
  }

  /** Different indices give different names, so each probe asks about a new file. */
  lemma CandidateNameInjective(i: nat, j: nat)
    ensures CandidateName(i) == CandidateName(j) ==> i == j
  {
    if CandidateName(i) == CandidateName(j) {
      var a, b := CandidateName(i), CandidateName(j);
      assert Decimal(i) == a[|BaseName|..|a| - |Extension|];
      assert Decimal(j) == b[|BaseName|..|b| - |Extension|];
      DecimalInjective(i, j);
    }
  }

  /** `i` is where the probe loop stops: every earlier candidate exists and this one does not. */
  predicate IsLeastFree(entries: set<string>, i: nat) {
    && 1 <= i
    && CandidateName(i) !in entries
    && forall j :: 1 <= j < i ==> CandidateName(j) in entries
  }

  /** At most one index is the least free one. */
  lemma LeastFreeUnique(entries: set<string>, i: nat, k: nat)
    requires IsLeastFree(entries, i) && IsLeastFree(entries, k)
    ensures i == k
  {
  }

  /** Probes `output1.mp4`, `output2.mp4`, ... in `directory` and returns the
      first free one, joined onto the directory, with its index. */
  method SuggestOutputFilename(directory: string, entries: set<string>) returns (index: nat, path: string)
    ensures IsLeastFree(entries, index)
    ensures index <= |entries| + 1
    ensures path == Join(directory, CandidateName(index))
  {
    index := 1;
    ghost var probed: set<string> := {};
    while CandidateName(index) in entries
      invariant 1 <= index
      invariant probed == set j | 1 <= j < index :: CandidateName(j)
      invariant probed <= entries
      invariant |probed| == index - 1
      decreases |entries| - |probed|
    {
      forall j | 1 <= j < index
        ensures CandidateName(j) != CandidateName(index)
      {
        CandidateNameInjective(j, index);
      }
      assert CandidateName(index) !in probed;
      probed := probed + {CandidateName(index)};
      index := index + 1;
      assert probed <= entries;
      assert |probed| <= |entries| by {
        SubsetSize(probed, entries);
      }
    }
    path := Join(directory, CandidateName(index));
    assert forall j :: 1 <= j < index ==> CandidateName(j) in probed;
    SubsetSize(probed, entries);
  }

  lemma SubsetSize(a: set<string>, b: set<string>)
    requires a <= b
    ensures |a| <= |b|
  {
    assert b == a + (b - a);
  }

  /** A directory that already holds `output1.mp4` and `output2.mp4` gets `output3.mp4`. */
  lemma TwoTakenExample(entries: set<string>)
    requires entries == {"output1.mp4", "output2.mp4"}
    ensures IsLeastFree(entries, 3)
  {
    assert CandidateName(1) == "output1.mp4";
    assert CandidateName(2) == "output2.mp4";
    assert CandidateName(3) == "output3.mp4";
  }
}
