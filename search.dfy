/**
 * The search step both pickers share: the case-insensitive title match, the
 * filter it drives over all items, and the choice of the list on display.
 */
module Search {
  import opened Identified

  /** Case folding of one character, restricted to ASCII: 'A'..'Z' become 'a'..'z'. */
  function LowerChar(c: char): (d: char)
    ensures !('A' <= d <= 'Z')
    ensures ('a' <= d <= 'z') <==> ('a' <= c <= 'z' || 'A' <= c <= 'Z')
    ensures !('A' <= c <= 'Z') ==> d == c
    ensures 'A' <= c <= 'Z' ==> d as int - 'a' as int == c as int - 'A' as int
  {
    if 'A' <= c <= 'Z' then (c as int + 32) as char else c
  }

  /** String.lowercased(), character by character. */
  function Lowercased(s: string): (r: string)
    ensures |r| == |s|
    ensures forall i :: 0 <= i < |s| ==> r[i] == LowerChar(s[i])
  {
    if s == [] then [] else [LowerChar(s[0])] + Lowercased(s[1..])
  }

  /** Folding an already folded character changes nothing. */
  lemma LowerCharIdempotent(c: char)
    ensures LowerChar(LowerChar(c)) == LowerChar(c)
  {
  }

  /** Lower-casing an already lowercased string changes nothing. */
  lemma LowercasedIdempotent(s: string)
    ensures Lowercased(Lowercased(s)) == Lowercased(s)
  {
    var l := Lowercased(s);
    forall i | 0 <= i < |s| ensures Lowercased(l)[i] == l[i] {
      LowerCharIdempotent(s[i]);
    }
  }

  /** `needle` occurs in `hay` starting at position `i`. */
  predicate OccursAt(hay: string, needle: string, i: nat) {
    i + |needle| <= |hay| && hay[i..i + |needle|] == needle
  }

  /** String.contains: `needle` occurs as a contiguous run of characters in `hay`. */
  predicate Contains(hay: string, needle: string) {
    exists i: nat :: i <= |hay| && OccursAt(hay, needle, i)
  }

  /** The filter's predicate: the lowercased title contains the lowercased search text. */
  predicate Matches(x: Item, text: string) {
    Contains(Lowercased(x.title), Lowercased(text))
  }

  /**
   * IdentifiedArray.filter with the title match: the items of `s` that match
   * `text`, in the order in which `s` holds them.
   */
  function Filter(s: IdArray, text: string): (r: IdArray)
    ensures Subseq(r, s)
    ensures forall x :: x in r <==> x in s && Matches(x, text)
    ensures Ids(r) <= Ids(s)
  {
    if s == [] then []
    else
      HeadNotInTail(s);
      var rest := Filter(s[1..], text);
      if Matches(s[0], text) then
        ConsDistinct(s[0], rest);
        IdsCons(s[0], rest);
        assert ([s[0]] + rest)[1..] == rest;
        [s[0]] + rest
      else
        rest
  }

  /**
   * Filter is the only order-preserving selection of `s` that holds exactly the
   * matching items: any other description of "the matching items of `s`, in order"
   * picks out the same sequence.
   */
  lemma FilterIsTheMatchingSubsequence(s: IdArray, text: string, r: seq<Item>)
    requires Subseq(r, s)
    requires forall x :: x in r <==> x in s && Matches(x, text)
    ensures r == Filter(s, text)
  {
    var f := Filter(s, text);
    SubseqDeterminedByElements(s, r, f);
  }

  /**
   * The match ignores case on both sides: lower-casing the search text or the
   * title first does not change whether an item matches.
   */
  lemma MatchesIgnoresCase(x: Item, text: string)
    ensures Matches(x, text) <==> Matches(x, Lowercased(text))
    ensures Matches(x, text) <==> Matches(x.(title := Lowercased(x.title)), text)
  {
    LowercasedIdempotent(text);
    LowercasedIdempotent(x.title);
  }

  /** A text in which `needle`'s first two characters never stand side by side does not contain it. */
  lemma NoPair(hay: string, needle: string)
    requires |needle| >= 2
    requires forall i :: 0 <= i < |hay| - 1 ==> !(hay[i] == needle[0] && hay[i + 1] == needle[1])
    ensures !Contains(hay, needle)
  {
    forall i: nat | i <= |hay| ensures !OccursAt(hay, needle, i) {
      if i + |needle| <= |hay| {
        assert hay[i..i + |needle|][0] == hay[i] && hay[i..i + |needle|][1] == hay[i + 1];
      }
    }
  }

  lemma AppleDoesNotMatch(x: Item)
    requires x.title == "Apple"
    ensures !Matches(x, "an") && !Matches(x, "BAN")
  {
    assert Lowercased("an") == "an" && Lowercased("BAN") == "ban";
    assert Lowercased("Apple") == "apple";
    NoPair("apple", "an");
    NoPair("apple", "ban");
  }

  lemma BananaMatches(x: Item)
    requires x.title == "Banana"
    ensures Matches(x, "an") && Matches(x, "BAN")
  {
    assert Lowercased("an") == "an" && Lowercased("BAN") == "ban";
    assert Lowercased("Banana") == "banana";
    assert OccursAt("banana", "an", 1);
    assert OccursAt("banana", "ban", 0);
  }

  lemma GrapeDoesNotMatch(x: Item)
    requires x.title == "Grape"
    ensures !Matches(x, "an") && !Matches(x, "BAN")
  {
    assert Lowercased("an") == "an" && Lowercased("BAN") == "ban";
    assert Lowercased("Grape") == "grape";
    NoPair("grape", "an");
    NoPair("grape", "ban");
  }

  /**
   * Searching among Apple, Banana and Grape: "an" keeps Banana alone, and so does
   * "BAN", which the title "Banana" does not contain as written — the case of the
   * letters does not decide the match.
   */
  lemma FilterExample(apple: Item, banana: Item, grape: Item)
    requires apple.title == "Apple" && banana.title == "Banana" && grape.title == "Grape"
    requires apple.id != banana.id && apple.id != grape.id && banana.id != grape.id
    ensures Filter([apple, banana, grape], "an") == [banana]
    ensures !Contains(banana.title, "BAN") && Filter([apple, banana, grape], "BAN") == [banana]
  {
    AppleDoesNotMatch(apple);
    BananaMatches(banana);
    GrapeDoesNotMatch(grape);
    NoPair("Banana", "BAN");
    var s: IdArray := [apple, banana, grape];
    var t: IdArray := [banana, grape];
    var u: IdArray := [grape];
    assert s[1..] == t && t[1..] == u && u[1..] == [];
    assert Filter(u, "an") == [] && Filter(u, "BAN") == [];
    assert Filter(t, "an") == [banana] && Filter(t, "BAN") == [banana];
  }

  /**
   * The `items` view: the filtered list while a search text is entered, all items
   * otherwise — always exactly one of the two.
   */
  function Displayed(all: IdArray, filtered: IdArray, searchText: string): IdArray {
    if searchText == "" then all else filtered
  }

  /** The filtered items are those of the current search text whenever one is entered. */
  predicate FilterUpToDate(all: IdArray, filtered: IdArray, searchText: string) {
    searchText != "" ==> filtered == Filter(all, searchText)
  }

  /**
   * While the filtered items are up to date, the list on display is all items with
   * no search text, and the matching items of the current text otherwise: never a
   * stale filter result.
   */
  lemma DisplayedWhenUpToDate(all: IdArray, filtered: IdArray, searchText: string)
    requires FilterUpToDate(all, filtered, searchText)
    ensures Displayed(all, filtered, searchText) == if searchText == "" then all else Filter(all, searchText)
  {
  }
}
