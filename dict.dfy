/** The reverse index of the dictionary (src/dict.rs): from each word to the position of its
    entry. The dictionary itself, read from a JSON file at start-up, is a given sequence here. */
module Dict {
  import opened Model

  /** Some entry of `dict` has the word `w`. */
  ghost predicate HasWord(dict: seq<Answer>, w: string)
  {
    exists i :: 0 <= i < |dict| && dict[i].word == w
  }

  /** The words of a dictionary are those of all but its last entry, and the last one's. */
  lemma HasWordSnoc(dict: seq<Answer>)
    requires dict != []
    ensures forall w :: HasWord(dict, w) <==> HasWord(dict[..|dict| - 1], w) || dict[|dict| - 1].word == w
  {
    var n := |dict| - 1;
    assert forall i :: 0 <= i < n ==> dict[..n][i] == dict[i];
  }

  /** `m` indexes `dict` by first occurrence: its keys are the dictionary's words, and each
      names the position of the word's first entry. */
  ghost predicate IsFirstIndex(dict: seq<Answer>, m: map<string, nat>)
  {
    && (forall w :: w in m <==> HasWord(dict, w))
    && (forall w :: w in m ==> m[w] < |dict| && dict[m[w]].word == w)
    && (forall w :: w in m ==> forall j :: 0 <= j < m[w] ==> dict[j].word != w)
  }

  /** One step of `or_insert`: an entry whose word is already a key leaves the index as it is,
      and a new word is added with the entry's position. */
  lemma FirstIndexSnoc(dict: seq<Answer>, m: map<string, nat>)
    requires dict != [] && IsFirstIndex(dict[..|dict| - 1], m)
    ensures var n := |dict| - 1;
            IsFirstIndex(dict, if dict[n].word in m then m else m[dict[n].word := n])
  {
    var n := |dict| - 1;
    HasWordSnoc(dict);
    assert forall i :: 0 <= i < n ==> dict[..n][i] == dict[i];
  }

  /** The index `reserve_index` builds over `dict`: every word of the dictionary is a key, and
      its value is the position of the word's first entry, later duplicates being ignored. */
  function IndexOf(dict: seq<Answer>): (m: map<string, nat>)
    ensures IsFirstIndex(dict, m)
  {
    if dict == [] then map[]
    else
      var n := |dict| - 1;
      var m := IndexOf(dict[..n]);
      FirstIndexSnoc(dict, m);
      if dict[n].word in m then m else m[dict[n].word := n]
  }

  /** `reserve_index`: one pass over the dictionary, `entry(word).or_insert(i)` for each
      entry in order. */
  method ReserveIndex(dict: seq<Answer>) returns (res: map<string, nat>)
    ensures res == IndexOf(dict)
  {
    res := map[];
    for i := 0 to |dict|
      invariant res == IndexOf(dict[..i])
    {
      assert dict[..i + 1][..i] == dict[..i];
      if dict[i].word !in res {
        res := res[dict[i].word := i];
      }
    }
    assert dict[..|dict|] == dict;
  }

  /** A later entry with the same word never replaces an earlier one in the index. */
  lemma FirstOccurrenceKept(dict: seq<Answer>, i: nat, j: nat)
    requires i < j < |dict| && dict[i].word == dict[j].word
    ensures dict[i].word in IndexOf(dict) && IndexOf(dict)[dict[i].word] <= i < j
  {
  }
}
