/** Splitting at a separator, and its inverse. */
module Strings {
  import opened Wrappers

  /** The first place of `d`. */
  function Find(s: string, d: char): (p: Option<nat>)
    ensures p.None? ==> d !in s
    ensures p.Some? ==> p.value < |s| && s[p.value] == d && forall i :: 0 <= i < p.value ==> s[i] != d
  {
    if s == "" then None
    else if s[0] == d then Some(0)
    else
      var p := Find(s[1..], d);
      if p.None? then None else Some(p.value + 1)
  }

  /** At most `max` parts (one at least); the last part is whatever is left. */
  function Split(s: string, d: char, max: nat): seq<string>
    decreases |s|
  {
    var p := Find(s, d);
    if max <= 1 || p.None? then [s] else [s[..p.value]] + Split(s[p.value + 1..], d, max - 1)
  }

  function Join(parts: seq<string>, d: char): string {
    if |parts| == 0 then "" else if |parts| == 1 then parts[0] else parts[0] + [d] + Join(parts[1..], d)
  }

  /** Only the last part can hold the separator, and only when all `max` parts are used up. */
  ghost predicate Parts(parts: seq<string>, d: char, max: nat) {
    && 1 <= |parts| && (|parts| <= max || |parts| == 1)
    && (forall i :: 0 <= i < |parts| - 1 ==> d !in parts[i])
    && (|parts| < max ==> d !in parts[|parts| - 1])
  }

  lemma FindFirst(before: string, d: char, after: string)
    requires d !in before
    ensures Find(before + [d] + after, d) == Some(|before|)
  {
    var s := before + [d] + after;
    assert s[|before|] == d && s[..|before|] == before;
    assert forall i :: 0 <= i < |before| ==> s[i] == before[i] && before[i] in before;
  }

  /** Splitting cuts nothing off, and cuts wherever it may. */
  lemma {:induction false} SplitMeaning(s: string, d: char, max: nat)
    ensures Parts(Split(s, d, max), d, max) && Join(Split(s, d, max), d) == s
    decreases |s|
  {
    hide Find, Split, Join, Parts;
    var p := Find(s, d);
    SplitCut(s, d, max);
    if max > 1 && p.Some? {
      var first, rest := s[..p.value], s[p.value + 1..];
      SplitMeaning(rest, d, max - 1);
      assert s == first + [d] + rest;
      PartsCons(first, Split(rest, d, max - 1), d, max);
    } else {
      PartsOne(s, d, max);
    }
  }

  lemma SplitCut(s: string, d: char, max: nat)
    ensures var p := Find(s, d);
            Split(s, d, max) == if max <= 1 || p.None? then [s]
                                else [s[..p.value]] + Split(s[p.value + 1..], d, max - 1)
  {
    hide Find;
  }

  lemma PartsOne(s: string, d: char, max: nat)
    requires max <= 1 || d !in s
    ensures Parts([s], d, max) && Join([s], d) == s
  {
  }

  lemma PartsCons(first: string, rest: seq<string>, d: char, max: nat)
    requires max > 1 && d !in first && Parts(rest, d, max - 1)
    ensures Parts([first] + rest, d, max) && Join([first] + rest, d) == first + [d] + Join(rest, d)
  {
    assert ([first] + rest)[1..] == rest;
  }

  /** Splitting undoes joining. */
  lemma {:induction false} SplitJoined(parts: seq<string>, d: char, max: nat)
    requires Parts(parts, d, max)
    ensures Split(Join(parts, d), d, max) == parts
    decreases |parts|
  {
    if |parts| > 1 {
      hide Find, Split;
      SplitAtFirst(parts[0], d, Join(parts[1..], d), max);
      SplitJoined(parts[1..], d, max - 1);
      assert parts == [parts[0]] + parts[1..];
    } else {
      hide Find, Join;
    }
  }

  /** A text that ends in the separator has one part more, whatever the bound, as long as it is wide enough. */
  lemma SplitAtFirst(before: string, d: char, after: string, max: nat)
    requires d !in before && max > 1
    ensures Split(before + [d] + after, d, max) == [before] + Split(after, d, max - 1)
  {
    hide Find;
    var s := before + [d] + after;
    FindFirst(before, d, after);
    assert s[..|before|] == before && s[|before| + 1..] == after;
  }

  /** Splitting the piece of `s` that begins at `start`. */
  lemma SplitFrom(s: string, start: nat, d: char, max: nat)
    requires start <= |s| && max > 1
    ensures var pos := Find(s[start..], d);
            Split(s[start..], d, max)
            == if pos.None? then [s[start..]]
               else [s[start..start + pos.value]] + Split(s[start + pos.value + 1..], d, max - 1)
  {
    hide Find;
    var pos := Find(s[start..], d);
    assert pos.Some? ==> s[start..][..pos.value] == s[start..start + pos.value]
                         && s[start..][pos.value + 1..] == s[start + pos.value + 1..];
  }

  lemma SplitLast(s: string, d: char, max: int)
    requires 0 <= max <= 1
    ensures Split(s, d, max) == [s]
  {
  }

  lemma SplitNowhere(s: string, d: char, max: nat)
    requires d !in s
    ensures Split(s, d, max) == [s]
  {
  }
}
