/** Persistence of the multi-channel panel's channel ids (`TetraMultiPanel.cs`): the tag
    scanner that reads the channels file, the serialiser that writes it, and the panel's
    tab list with its at-least-one-channel rule. File contents are passed in and returned
    as text. */
module ChannelIds {
  import opened Text

  const OpenTag := "<id>"
  const CloseTag := "</id>"

  // ---- case-insensitive search ----

  /** `pat` occurs at `i`, comparing characters with ASCII case folding. */
  predicate MatchAt(text: string, i: int, pat: string)
    decreases |pat|
  {
    0 <= i && i + |pat| <= |text|
    && (pat == [] || (EqualsIgnoreCase(text[i], pat[0]) && MatchAt(text, i + 1, pat[1..])))
  }

  lemma {:induction false} MatchAtChar(text: string, i: int, pat: string, k: nat)
    requires MatchAt(text, i, pat) && k < |pat|
    ensures i + |pat| <= |text| && EqualsIgnoreCase(text[i + k], pat[k])
    decreases k
  {
    if k > 0 {
      MatchAtChar(text, i + 1, pat[1..], k - 1);
    }
  }

  /** `text.IndexOf(pat, start, StringComparison.OrdinalIgnoreCase)`: the first match at or
      after `start`, or -1 when there is none. */
  function IndexOfFrom(text: string, pat: string, start: nat): (i: int)
    requires start <= |text|
    ensures i == -1 || (start <= i && i + |pat| <= |text|)
    decreases |text| - start
  {
    if start + |pat| > |text| then -1
    else if MatchAt(text, start, pat) then start
    else IndexOfFrom(text, pat, start + 1)
  }

  /** Where the search reports a position, the pattern matches there. */
  lemma {:induction false} IndexOfFromMatch(text: string, pat: string, start: nat)
    requires start <= |text|
    ensures IndexOfFrom(text, pat, start) >= 0 ==> MatchAt(text, IndexOfFrom(text, pat, start), pat)
    decreases |text| - start
  {
    if start + |pat| <= |text| && !MatchAt(text, start, pat) {
      IndexOfFromMatch(text, pat, start + 1);
    }
  }

  /** The search finds the first match: there is none before the index it returns, and
      none at all when it returns -1. */
  lemma {:induction false} IndexOfFromFirst(text: string, pat: string, start: nat, j: int)
    requires start <= j && start <= |text|
    requires IndexOfFrom(text, pat, start) == -1 || j < IndexOfFrom(text, pat, start)
    ensures !MatchAt(text, j, pat)
    decreases |text| - start
  {
    if start + |pat| <= |text| && !MatchAt(text, start, pat) && j > start {
      IndexOfFromFirst(text, pat, start + 1, j);
    }
  }

  /** A character of the text matched by both tags' characters at the same position:
      impossible unless the two pattern characters fold alike. */
  lemma {:induction false} TagClash(text: string, a: int, ka: int, b: int, kb: int)
    ensures MatchAt(text, a, OpenTag) && MatchAt(text, b, CloseTag)
            && 0 <= ka < |OpenTag| && 0 <= kb < |CloseTag| && a + ka == b + kb
            ==> ToUpperAscii(OpenTag[ka]) == ToUpperAscii(CloseTag[kb])
  {
    if MatchAt(text, a, OpenTag) && MatchAt(text, b, CloseTag)
       && 0 <= ka < |OpenTag| && 0 <= kb < |CloseTag| && a + ka == b + kb {
      MatchAtChar(text, a, OpenTag, ka);
      MatchAtChar(text, b, CloseTag, kb);
    }
  }

  /** An opening and a closing tag found at or after it cannot overlap: the closing tag
      starts after the four characters of the opening one. */
  lemma TagsApart(text: string, a: int, b: int)
    requires MatchAt(text, a, OpenTag) && MatchAt(text, b, CloseTag) && a <= b
    ensures a + 4 <= b
  {
    if b == a {
      TagClash(text, a, 1, b, 1);
    } else {
      TagClash(text, a, b - a, b, 0);
    }
  }

  // ---- LoadChannelIds ----

  /** An opening tag found from `start` and the closing tag found after it enclose a text,
      and the closing tag lies within the text. */
  lemma TagPair(text: string, start: nat, a: int, b: int)
    requires start <= |text|
    requires a == IndexOfFrom(text, OpenTag, start) && a >= 0
    requires b == IndexOfFrom(text, CloseTag, a) && b >= 0
    ensures a + 4 <= b && b + 5 <= |text|
  {
    IndexOfFromMatch(text, OpenTag, start);
    IndexOfFromMatch(text, CloseTag, a);
    TagsApart(text, a, b);
  }

  /** The texts the scanner finds from `start` on: for each opening tag, what lies between
      it and the next closing tag. The scan ends at the first opening tag without a closing
      tag. */
  function Inners(text: string, start: nat): seq<string>
    requires start <= |text|
    decreases |text| - start
  {
    var a := IndexOfFrom(text, OpenTag, start);
    if a < 0 then []
    else
      var b := IndexOfFrom(text, CloseTag, a);
      if b < 0 then []
      else
        TagPair(text, start, a, b);
        [text[a + 4..b]] + Inners(text, b + 5)
  }

  /** The id one tag holds: its trimmed text when that parses to a positive integer. */
  function IdOf(inner: string): seq<int>
  {
    var v := ParseInt(Trim(inner));
    if v.Some? && v.value > 0 then [v.value] else []
  }

  /** The ids of the tag texts, in order, with `idOf` saying what one text contributes. */
  function IdsOf(inners: seq<string>, idOf: string -> seq<int>): seq<int>
  {
    if inners == [] then [] else idOf(inners[0]) + IdsOf(inners[1..], idOf)
  }

  /** Every id collected is a positive 32-bit integer. */
  lemma {:induction false} IdsOfPositive(inners: seq<string>)
    ensures PositiveIds(IdsOf(inners, IdOf))
  {
    if inners != [] {
      IdsOfPositive(inners[1..]);
    }
  }

  /** The ids the loader collects from a file text. */
  function Scan(text: string): seq<int>
  {
    IdsOf(Inners(text, 0), IdOf)
  }

  /** Channel ids as the panel uses them: positive 32-bit integers. */
  predicate PositiveIds(s: seq<int>)
  {
    forall i :: 0 <= i < |s| ==> 0 < s[i] <= Int32Max
  }

  predicate StrictlyIncreasing(s: seq<int>)
  {
    forall i, j :: 0 <= i < j < |s| ==> s[i] < s[j]
  }

  function Elems(s: seq<int>): set<int>
  {
    set x | x in s
  }

  lemma ElemsConcat(a: seq<int>, b: seq<int>)
    ensures Elems(a + b) == Elems(a) + Elems(b)
  {
    assert forall x :: x in a + b <==> x in a || x in b;
  }

  lemma IncreasingCons(x: int, s: seq<int>)
    requires StrictlyIncreasing(s) && (s != [] ==> x < s[0])
    ensures StrictlyIncreasing([x] + s)
  {
    var r := [x] + s;
    forall i, j | 0 <= i < j < |r|
      ensures r[i] < r[j]
    {
      if i > 0 {
        assert r[i] == s[i - 1] && r[j] == s[j - 1];
      } else {
        assert r[j] == s[j - 1];
      }
    }
  }

  /** Puts `x` into an ascending duplicate-free list, unless it is there already. */
  function Insert(x: int, s: seq<int>): seq<int>
  {
    if s == [] then [x]
    else if x < s[0] then [x] + s
    else if x == s[0] then s
    else [s[0]] + Insert(x, s[1..])
  }

  /** Inserting adds exactly `x` to the elements. */
  lemma {:induction false} InsertElems(x: int, s: seq<int>)
    ensures Elems(Insert(x, s)) == Elems(s) + {x}
  {
    if s == [] {
    } else if x < s[0] {
      ElemsConcat([x], s);
    } else if x == s[0] {
      assert x in s;
    } else {
      InsertElems(x, s[1..]);
      assert s == [s[0]] + s[1..];
      ElemsConcat([s[0]], s[1..]);
      ElemsConcat([s[0]], Insert(x, s[1..]));
    }
  }

  /** Inserting into an ascending duplicate-free list keeps it so; the head is the
      smaller of `x` and the old head. */
  lemma {:induction false} InsertIncreasing(x: int, s: seq<int>)
    requires StrictlyIncreasing(s)
    ensures StrictlyIncreasing(Insert(x, s))
    ensures Insert(x, s) != [] && Insert(x, s)[0] == if s != [] && s[0] < x then s[0] else x
  {
    if s != [] && x < s[0] {
      IncreasingCons(x, s);
    } else if s != [] && x > s[0] {
      ElemsTail(s);
      InsertIncreasing(x, s[1..]);
      IncreasingCons(s[0], Insert(x, s[1..]));
    }
  }

  /** Inserting into an ascending duplicate-free list keeps it so and adds exactly `x`. */
  lemma InsertSorted(x: int, s: seq<int>)
    requires StrictlyIncreasing(s)
    ensures StrictlyIncreasing(Insert(x, s))
    ensures Elems(Insert(x, s)) == Elems(s) + {x}
  {
    InsertElems(x, s);
    InsertIncreasing(x, s);
  }

  /** `Distinct().OrderBy(x => x)`: the distinct values in ascending order. */
  function SortDistinct(s: seq<int>): seq<int>
  {
    if s == [] then [] else Insert(s[|s| - 1], SortDistinct(s[..|s| - 1]))
  }

  lemma {:induction false} SortDistinctSpec(s: seq<int>)
    ensures StrictlyIncreasing(SortDistinct(s)) && Elems(SortDistinct(s)) == Elems(s)
  {
    if s != [] {
      SortDistinctSpec(s[..|s| - 1]);
      InsertSorted(s[|s| - 1], SortDistinct(s[..|s| - 1]));
      assert s == s[..|s| - 1] + [s[|s| - 1]];
      ElemsConcat(s[..|s| - 1], [s[|s| - 1]]);
    }
  }

  /** An ascending duplicate-free list is determined by its elements. */
  lemma {:induction false} SortedUnique(a: seq<int>, b: seq<int>)
    requires StrictlyIncreasing(a) && StrictlyIncreasing(b) && Elems(a) == Elems(b)
    ensures a == b
    decreases |a|
  {
    if a == [] {
      ElemsEmpty(b);
    } else {
      assert a[0] in Elems(a);
      var k :| 0 <= k < |b| && b[k] == a[0];
      assert b[0] in Elems(b);
      var m :| 0 <= m < |a| && a[m] == b[0];
      assert a[0] <= a[m] && b[0] <= b[k];
      ElemsTail(a);
      ElemsTail(b);
      SortedUnique(a[1..], b[1..]);
      assert a == [a[0]] + a[1..];
      assert b == [b[0]] + b[1..];
    }
  }

  /** The tail of an ascending duplicate-free list is one, without the head. */
  lemma ElemsTail(s: seq<int>)
    requires StrictlyIncreasing(s) && s != []
    ensures StrictlyIncreasing(s[1..]) && Elems(s[1..]) == Elems(s) - {s[0]}
  {
    assert s == [s[0]] + s[1..];
    ElemsConcat([s[0]], s[1..]);
    forall i | 0 <= i < |s| - 1
      ensures s[1..][i] != s[0]
    {
      assert s[1..][i] == s[i + 1];
    }
  }

  lemma ElemsEmpty(s: seq<int>)
    ensures Elems(s) == {} ==> s == []
  {
    if s != [] {
      assert s[0] in Elems(s);
    }
  }

  /** Sorting an already ascending duplicate-free list changes nothing. */
  lemma SortDistinctSorted(s: seq<int>)
    requires StrictlyIncreasing(s)
    ensures SortDistinct(s) == s
  {
    SortDistinctSpec(s);
    SortedUnique(SortDistinct(s), s);
  }

  /** What `LoadChannelIds` returns for the file's content (`None`: no file). */
  function Loaded(file: Option<string>): seq<int>
  {
    if file.None? then [] else SortDistinct(Scan(file.value))
  }

  /** The loaded list is ascending, duplicate-free and holds positive 32-bit ids, exactly
      the ones the scanner finds. */
  lemma LoadedShape(file: Option<string>)
    ensures StrictlyIncreasing(Loaded(file))
    ensures forall x :: x in Loaded(file) ==> 0 < x <= Int32Max
    ensures file.Some? ==> Elems(Loaded(file)) == Elems(Scan(file.value))
  {
    if file.None? {
      assert Loaded(file) == [];
    } else {
      var s := Scan(file.value);
      SortDistinctSpec(s);
      IdsOfPositive(Inners(file.value, 0));
      forall x | x in Loaded(file)
        ensures 0 < x <= Int32Max
      {
        assert x in Elems(Loaded(file));
        assert x in Elems(s);
        var i :| 0 <= i < |s| && s[i] == x;
      }
    }
  }

  /** One round of the scanner: the tags found at `a` and `b` contribute their text, and
      the scan goes on after the closing tag. */
  lemma ScanStep(text: string, start: nat, a: int, b: int)
    requires start <= |text|
    requires a == IndexOfFrom(text, OpenTag, start) && a >= 0
    requires b == IndexOfFrom(text, CloseTag, a) && b >= 0
    ensures a + 4 <= b && b + 5 <= |text|
    ensures Inners(text, start) == [text[a + 4..b]] + Inners(text, b + 5)
  {
    TagPair(text, start, a, b);
  }

  /** `ScanStep` with the position after the closing tag given. */
  lemma ScanFrom(text: string, start: nat, a: int, b: int, next: nat)
    requires start <= |text|
    requires a == IndexOfFrom(text, OpenTag, start) && a >= 0
    requires b == IndexOfFrom(text, CloseTag, a) && b >= 0 && next == b + 5
    ensures a + 4 <= b && next <= |text|
    ensures Inners(text, start) == [text[a + 4..b]] + Inners(text, next)
  {
    ScanStep(text, start, a, b);
  }

  /** The scan stops at an opening tag without a closing one, or when there is none. */
  lemma ScanStop(text: string, start: nat)
    requires start <= |text|
    requires IndexOfFrom(text, OpenTag, start) < 0
             || IndexOfFrom(text, CloseTag, IndexOfFrom(text, OpenTag, start)) < 0
    ensures Inners(text, start) == []
  {
  }

  lemma AppendAssoc<T>(x: seq<T>, y: seq<T>, z: seq<T>)
    ensures x + (y + z) == (x + y) + z
  {
  }

  /** The loader's rounds from `start` on, after `found`; `idOf` says which ids one tag
      text contributes. */
  function Collect(text: string, start: nat, found: seq<int>, idOf: string -> seq<int>): seq<int>
    requires start <= |text|
    decreases |text| - start
  {
    var a := IndexOfFrom(text, OpenTag, start);
    if a < 0 then found
    else
      var b := IndexOfFrom(text, CloseTag, a);
      if b < 0 then found
      else
        ScanStep(text, start, a, b);
        Collect(text, b + 5, found + idOf(text[a + 4..b]), idOf)
  }

  /** One round of `Collect`: the tag pair at `a`, `b` adds the ids of its text. */
  lemma CollectStep(text: string, start: nat, found: seq<int>, idOf: string -> seq<int>, a: int, b: int)
    requires start <= |text|
    requires a == IndexOfFrom(text, OpenTag, start) && a >= 0
    requires b == IndexOfFrom(text, CloseTag, a) && b >= 0
    ensures a + 4 <= b && b + 5 <= |text|
    ensures Collect(text, start, found, idOf) == Collect(text, b + 5, found + idOf(text[a + 4..b]), idOf)
  {
    ScanStep(text, start, a, b);
  }

  /** `Collect` stops at an opening tag without a closing one, or when there is none. */
  lemma CollectStop(text: string, start: nat, found: seq<int>, idOf: string -> seq<int>)
    requires start <= |text|
    requires IndexOfFrom(text, OpenTag, start) < 0
             || IndexOfFrom(text, CloseTag, IndexOfFrom(text, OpenTag, start)) < 0
    ensures Collect(text, start, found, idOf) == found
  {
  }

  lemma {:induction false} CollectScan(text: string, start: nat, found: seq<int>, idOf: string -> seq<int>)
    requires start <= |text|
    ensures Collect(text, start, found, idOf) == found + IdsOf(Inners(text, start), idOf)
    decreases |text| - start
  {
    var a := IndexOfFrom(text, OpenTag, start);
    var b := if a < 0 then -1 else IndexOfFrom(text, CloseTag, a);
    if a < 0 || b < 0 {
      ScanStop(text, start);
      assert found + [] == found;
    } else {
      ScanStep(text, start, a, b);
      var x := text[a + 4..b];
      var rest := Inners(text, b + 5);
      CollectScan(text, b + 5, found + idOf(x), idOf);
      assert ([x] + rest)[1..] == rest;
      AppendAssoc(found, idOf(x), IdsOf(rest, idOf));
    }
  }

  /** The loop's update of the found ids is appending `IdOf` of the tag text. */
  lemma AddId(found: seq<int>, x: string, id: Option<int>)
    requires id == ParseInt(Trim(x))
    ensures (if id.Some? && id.value > 0 then found + [id.value] else found) == found + IdOf(x)
  {
    assert found + [] == found;
  }

  /** One round of the loop: the tag pair at `a`, `b` adds its id `id` when the text between
      them parses to a positive number, and the scan goes on after the closing tag. */
  lemma LoadRound(text: string, start: nat, found: seq<int>, a: int, b: int, id: Option<int>)
    requires start <= |text|
    requires a == IndexOfFrom(text, OpenTag, start) && a >= 0
    requires b == IndexOfFrom(text, CloseTag, a) && b >= 0
    requires a + 4 <= b <= |text| && id == ParseInt(Trim(text[a + 4..b]))
    ensures b + 5 <= |text|
    ensures id.Some? && id.value > 0 ==>
              Collect(text, start, found, IdOf) == Collect(text, b + 5, found + [id.value], IdOf)
    ensures !(id.Some? && id.value > 0) ==>
              Collect(text, start, found, IdOf) == Collect(text, b + 5, found, IdOf)
  {
    var x := text[a + 4..b];
    AddId(found, x, id);
    CollectStep(text, start, found, IdOf, a, b);
  }

  /** Once the loop has seen every tag pair, sorting and deduplicating gives `Loaded`. */
  lemma LoadFinish(text: string)
    ensures SortDistinct(Collect(text, 0, [], IdOf)) == Loaded(Some(text))
  {
    CollectScan(text, 0, [], IdOf);
    assert [] + Scan(text) == Scan(text);
  }

  /** The search part of one round of the loader's loop from `start`: an opening tag, the
      closing tag after it, and the id the text between them parses to; `stop` when either
      tag is missing. */
  method LoadStep(text: string, start: nat, ghost found: seq<int>) returns (stop: bool, next: nat, id: Option<int>)
    requires start <= |text|
    ensures start < next <= |text| || stop
    ensures stop ==> Collect(text, start, found, IdOf) == found
    ensures !stop && id.Some? && id.value > 0 ==>
              Collect(text, start, found, IdOf) == Collect(text, next, found + [id.value], IdOf)
    ensures !stop && !(id.Some? && id.value > 0) ==>
              Collect(text, start, found, IdOf) == Collect(text, next, found, IdOf)
  {
    var a := IndexOfFrom(text, OpenTag, start);
    var b := if a < 0 then -1 else IndexOfFrom(text, CloseTag, a);
    if a < 0 || b < 0 {
      CollectStop(text, start, found, IdOf);
      return true, start, None;
    }
    TagPair(text, start, a, b);
    id := ParseInt(Trim(text[a + 4..b]));
    LoadRound(text, start, found, a, b, id);
    stop, next := false, b + 5;
  }

  method LoadChannelIds(file: Option<string>) returns (ids: seq<int>)
    ensures ids == Loaded(file)
  {
    if file.None? {
      return [];
    }
    var text := file.value;
    var found: seq<int> := [];
    var start := 0;
    while true
      invariant 0 <= start <= |text|
      invariant Collect(text, 0, [], IdOf) == Collect(text, start, found, IdOf)
      decreases |text| - start
    {
      var stop, next, id := LoadStep(text, start, found);
      if stop {
        break;
      }
      if id.Some? && id.value > 0 {
        found := found + [id.value];
      }
      start := next;
    }
    LoadFinish(text);
    ids := SortDistinct(found);
  }

  /** One id line as the serialiser writes it, with the line break before it. */
  function EntryLine(id: int): string
  {
    NewLine + "  " + OpenTag + IntToString(id) + CloseTag
  }

  function Entries(ids: seq<int>): string
  {
    if ids == [] then "" else EntryLine(ids[0]) + Entries(ids[1..])
  }

  const Opening := "<channels>"
  const Closing := NewLine + "</channels>"

  /** The file text: "<channels>", one indented id line per id, "</channels>", joined by
      the platform line break. */
  function Serialize(ids: seq<int>): string
  {
    Opening + Entries(ids) + Closing
  }

  /** The non-positive ids dropped, the order kept. */
  function Positives(s: seq<int>): seq<int>
  {
    if s == [] then [] else (if s[0] > 0 then [s[0]] else []) + Positives(s[1..])
  }

  lemma {:induction false} PositivesElems(s: seq<int>)
    ensures Elems(Positives(s)) == set x | x in s && x > 0
  {
    if s != [] {
      PositivesElems(s[1..]);
      assert s == [s[0]] + s[1..];
      ElemsConcat([s[0]], s[1..]);
      ElemsConcat(if s[0] > 0 then [s[0]] else [], Positives(s[1..]));
    }
  }

  // ---- the serialised text read back ----

  predicate NoMatchBetween(text: string, pat: string, lo: int, hi: int)
  {
    forall j :: lo <= j < hi ==> !MatchAt(text, j, pat)
  }

  /** Skipping positions where the pattern does not occur changes no search result. */
  lemma {:induction false} IndexOfFromSkip(text: string, pat: string, start: nat, k: nat)
    requires start <= k <= |text| && NoMatchBetween(text, pat, start, k)
    ensures IndexOfFrom(text, pat, start) == IndexOfFrom(text, pat, k)
    decreases k - start
  {
    if start < k {
      IndexOfFromSkip(text, pat, start + 1, k);
    }
  }

  /** A text slice equal to the pattern is a match. */
  lemma {:induction false} MatchAtSlice(text: string, i: nat, pat: string)
    requires i + |pat| <= |text| && text[i..i + |pat|] == pat
    ensures MatchAt(text, i, pat)
    decreases |pat|
  {
    if pat != [] {
      assert text[i + 1..i + 1 + |pat[1..]|] == pat[1..];
      MatchAtSlice(text, i + 1, pat[1..]);
    }
  }

  /** A match shows the pattern's `k`-th character, up to case, at `j + k`. */
  lemma MatchShows(text: string, j: int, pat: string, k: nat)
    requires k < |pat|
    ensures MatchAt(text, j, pat) ==> 0 <= j && j + |pat| <= |text| && EqualsIgnoreCase(text[j + k], pat[k])
  {
    if MatchAt(text, j, pat) {
      MatchAtChar(text, j, pat, k);
    }
  }

  /** Both tags start with '<', and only '<' folds to '<'. */
  predicate LtFree(s: string) { forall k :: 0 <= k < |s| ==> s[k] != '<' }

  lemma LtFreeNoMatch(text: string, lo: nat, s: string, pat: string)
    requires lo + |s| <= |text| && text[lo..lo + |s|] == s && LtFree(s)
    requires pat != [] && pat[0] == '<'
    ensures NoMatchBetween(text, pat, lo, lo + |s|)
  {
    forall j | lo <= j < lo + |s|
      ensures !MatchAt(text, j, pat)
    {
      MatchShows(text, j, pat, 0);
      assert text[j] == s[j - lo];
    }
  }

  lemma IntToStringLtFree(x: int)
    ensures LtFree(IntToString(x))
  {
    var s := IntToString(x);
    forall k | 0 <= k < |s|
      ensures s[k] != '<'
    {
      if x < 0 && k > 0 {
        assert s[k] == s[1..][k - 1];
      }
    }
  }

  /** A slice of a suffix is a slice of the text. */
  lemma SuffixSlice(text: string, start: nat, x: nat, y: nat, i: nat, j: nat)
    requires start <= |text| && x <= y <= |text| - start && i == start + x && j == start + y
    ensures text[start..][x..y] == text[i..j]
  {
  }

  lemma SuffixDrop(text: string, start: nat, x: nat, i: nat)
    requires start <= |text| && x <= |text| - start && i == start + x
    ensures text[start..][x..] == text[i..]
  {
  }

  /** Where an entry starts, the line break and indentation, then its opening tag. */
  lemma {:induction false} EntryHead(text: string, start: nat, id: int, rest: string, a: nat)
    requires start <= |text| && text[start..] == EntryLine(id) + rest && a == start + 4
    ensures a + 4 <= |text| && text[start..a] == NewLine + "  " && text[a..a + 4] == OpenTag
  {
    var t := text[start..];
    assert t == NewLine + "  " + OpenTag + (IntToString(id) + CloseTag + rest);
    assert t[..4] == NewLine + "  ";
    assert t[4..8] == OpenTag;
    SuffixSlice(text, start, 0, 4, start, a);
    SuffixSlice(text, start, 4, 8, a, a + 4);
  }

  /** After the opening tag of an entry: the id text, the closing tag and the rest. */
  lemma {:induction false} EntryTail(text: string, start: nat, id: int, rest: string, a: nat, b: nat, next: nat)
    requires start <= |text| && text[start..] == EntryLine(id) + rest
    requires a == start + 4 && b == a + 4 + |IntToString(id)| && next == b + 5
    ensures next <= |text| && text[a + 4..b] == IntToString(id) && text[b..next] == CloseTag && text[next..] == rest
  {
    var d := IntToString(id);
    var t := text[start..];
    assert t == NewLine + "  " + OpenTag + d + CloseTag + rest;
    assert t[8..8 + |d|] == d;
    assert t[8 + |d|..13 + |d|] == CloseTag;
    assert t[13 + |d|..] == rest;
    SuffixSlice(text, start, 8, 8 + |d|, a + 4, b);
    SuffixSlice(text, start, 8 + |d|, 13 + |d|, b, next);
    SuffixDrop(text, start, 13 + |d|, next);
  }

  /** After the line break and indentation, the search for the opening tag stops at the
      tag that follows. */
  lemma OpenAfterIndent(text: string, start: nat, a: nat)
    requires a == start + 4 && a + 4 <= |text|
    requires text[start..a] == NewLine + "  " && text[a..a + 4] == OpenTag
    ensures IndexOfFrom(text, OpenTag, start) == a
  {
    LtFreeNoMatch(text, start, NewLine + "  ", OpenTag);
    IndexOfFromSkip(text, OpenTag, start, a);
    MatchAtSlice(text, a, OpenTag);
  }

  /** From an opening tag, the search for the closing tag passes a text without '<' and
      stops at the closing tag after it. */
  lemma CloseAfterText(text: string, a: nat, d: string, b: nat)
    requires b == a + 4 + |d| && b + 5 <= |text|
    requires text[a..a + 4] == OpenTag && text[a + 4..b] == d && LtFree(d) && text[b..b + 5] == CloseTag
    ensures IndexOfFrom(text, CloseTag, a) == b
  {
    assert text[a + 1..a + 4] == text[a..a + 4][1..];
    assert text[a + 1] == text[a..a + 4][1];
    LtFreeNoMatch(text, a + 1, "id>", CloseTag);
    LtFreeNoMatch(text, a + 4, d, CloseTag);
    MatchShows(text, a, CloseTag, 1);
    IndexOfFromSkip(text, CloseTag, a, b);
    MatchAtSlice(text, b, CloseTag);
  }

  /** One entry: the scanner reads its id text and goes on at `next`, right after it. */
  lemma EntryScan(text: string, start: nat, id: int, rest: string, next: nat)
    requires start <= |text| && text[start..] == EntryLine(id) + rest
    requires next == start + 13 + |IntToString(id)|
    ensures next <= |text| && text[next..] == rest
    ensures Inners(text, start) == [IntToString(id)] + Inners(text, next)
  {
    var d := IntToString(id);
    var a := start + 4;
    var b := a + 4 + |d|;
    EntryHead(text, start, id, rest, a);
    EntryTail(text, start, id, rest, a, b, next);
    IntToStringLtFree(id);
    OpenAfterIndent(text, start, a);
    CloseAfterText(text, a, d, b);
    ScanFrom(text, start, a, b, next);
  }

  /** The closing line holds no opening tag. */
  lemma ClosingScan(text: string, start: nat)
    requires start <= |text| && text[start..] == Closing
    ensures Inners(text, start) == []
  {
    var t := text[start..];
    assert t[..2] == NewLine && t[3..] == "/channels>";
    assert text[start + 3] == t[3];
    LtFreeNoMatch(text, start, NewLine, OpenTag);
    LtFreeNoMatch(text, start + 3, "/channels>", OpenTag);
    MatchShows(text, start + 2, OpenTag, 1);
    IndexOfFromSkip(text, OpenTag, start, |text|);
    ScanStop(text, start);
  }

  function IdTexts(ids: seq<int>): (r: seq<string>)
    ensures |r| == |ids|
  {
    if ids == [] then [] else [IntToString(ids[0])] + IdTexts(ids[1..])
  }

  lemma {:induction false} EntriesScan(text: string, start: nat, ids: seq<int>)
    requires start <= |text| && text[start..] == Entries(ids) + Closing
    ensures Inners(text, start) == IdTexts(ids)
    decreases |ids|
  {
    if ids == [] {
      ClosingScan(text, start);
    } else {
      var rest := Entries(ids[1..]) + Closing;
      var next := start + 13 + |IntToString(ids[0])|;
      AppendAssoc(EntryLine(ids[0]), Entries(ids[1..]), Closing);
      EntryScan(text, start, ids[0], rest, next);
      EntriesScan(text, next, ids[1..]);
    }
  }

  /** The scanner finds exactly the rendered ids of a serialised list, in order. */
  lemma SerializeScan(ids: seq<int>)
    ensures Inners(Serialize(ids), 0) == IdTexts(ids)
  {
    var text := Serialize(ids);
    SerializeHead(ids);
    HeadNoOpen(text);
    IndexOfFromSkip(text, OpenTag, 0, 10);
    InnersSkip(text, 0, 10);
    EntriesScan(text, 10, ids);
  }

  /** The "<channels>" line holds no opening tag. */
  lemma HeadNoOpen(text: string)
    requires 10 <= |text| && text[..10] == Opening
    ensures NoMatchBetween(text, OpenTag, 0, 10)
  {
    assert text[1..10] == text[..10][1..];
    LtFreeNoMatch(text, 1, "channels>", OpenTag);
    MatchShows(text, 0, OpenTag, 1);
    assert text[1] == text[..10][1];
  }

  /** A text is its two parts. */
  lemma Halves(a: string, b: string)
    ensures (a + b)[..|a|] == a && (a + b)[|a|..] == b
  {
  }

  /** The entries follow the "<channels>" line. */
  lemma SerializeHead(ids: seq<int>)
    ensures var text := Serialize(ids);
            10 <= |text| && text[..10] == Opening && text[10..] == Entries(ids) + Closing
  {
    AppendAssoc(Opening, Entries(ids), Closing);
    Halves(Opening, Entries(ids) + Closing);
  }

  /** Two scans that find the same first opening tag find the same texts. */
  lemma InnersSkip(text: string, start: nat, k: nat)
    requires start <= k <= |text| && IndexOfFrom(text, OpenTag, start) == IndexOfFrom(text, OpenTag, k)
    ensures Inners(text, start) == Inners(text, k)
  {
  }

  predicate AllInt32(s: seq<int>) { forall i :: 0 <= i < |s| ==> IsInt32(s[i]) }

  /** A rendered 32-bit id is read back as itself when positive, and dropped otherwise. */
  lemma IdOfText(x: int)
    requires IsInt32(x)
    ensures IdOf(IntToString(x)) == if x > 0 then [x] else []
  {
    var s := IntToString(x);
    assert IsDigit(s[|s| - 1]) by {
      if x < 0 {
        assert s[|s| - 1] == s[1..][|s| - 2];
      }
    }
    TrimUnchanged(s);
    ParseIntToString(x);
  }

  lemma {:induction false} IdsOfTexts(ids: seq<int>)
    requires AllInt32(ids)
    ensures IdsOf(IdTexts(ids), IdOf) == Positives(ids)
  {
    if ids != [] {
      IdOfText(ids[0]);
      IdsOfTexts(ids[1..]);
      assert IdTexts(ids)[1..] == IdTexts(ids[1..]);
    }
  }

  /** Saving 32-bit ids and loading the file gives the positive ones, distinct and
      ascending. */
  lemma SerializeRoundTrip(ids: seq<int>)
    requires AllInt32(ids)
    ensures Loaded(Some(Serialize(ids))) == SortDistinct(Positives(ids))
  {
    SerializeScan(ids);
    IdsOfTexts(ids);
  }

  lemma {:induction false} PositivesOfPositive(ids: seq<int>)
    requires PositiveIds(ids)
    ensures Positives(ids) == ids
  {
    if ids != [] {
      PositivesOfPositive(ids[1..]);
      assert ids == [ids[0]] + ids[1..];
    }
  }

  /** A list as the loader returns it, saved, loads back unchanged. */
  lemma SerializeLoadsBack(ids: seq<int>)
    requires PositiveIds(ids) && StrictlyIncreasing(ids)
    ensures Loaded(Some(Serialize(ids))) == ids
  {
    SerializeRoundTrip(ids);
    PositivesOfPositive(ids);
    SortDistinctSorted(ids);
  }

  // ---- SaveChannelIds ----

  /** `string.Split(sep)`: the pieces between separators, empty ones included. */
  function Split(s: string, sep: char): (parts: seq<string>)
    ensures |parts| >= 1
  {
    if s == [] then [""]
    else
      var rest := Split(s[1..], sep);
      if s[0] == sep then [""] + rest else [[s[0]] + rest[0]] + rest[1..]
  }

  predicate Without(s: string, c: char) { forall k :: 0 <= k < |s| ==> s[k] != c }

  /** A word without the separator, then the separator: the word is the first piece. */
  lemma {:induction false} SplitWord(w: string, sep: char, rest: string)
    requires Without(w, sep)
    ensures Split(w + [sep] + rest, sep) == [w] + Split(rest, sep)
  {
    if w != [] {
      SplitWord(w[1..], sep, rest);
      assert (w + [sep] + rest)[1..] == w[1..] + [sep] + rest;
      assert [w[0]] + w[1..] == w;
    } else {
      assert w + [sep] + rest == [sep] + rest;
    }
  }

  lemma {:induction false} SplitWithout(s: string, sep: char)
    requires Without(s, sep)
    ensures Split(s, sep) == [s]
  {
    if s != [] {
      SplitWithout(s[1..], sep);
      assert [s[0]] + s[1..] == s;
    }
  }

  /** The tab title for a channel. */
  function Title(id: int): string
  {
    "Kanaal " + IntToString(id)
  }

  /** The id `SaveChannelIds` reads from a tab title: the second space-separated piece,
      when it parses as a 32-bit integer. */
  function TitleId(title: string): Option<int>
  {
    var parts := Split(title, ' ');
    if |parts| > 1 then ParseInt(parts[1]) else None
  }

  /** Every title the panel gives a tab yields its id back. */
  lemma TitleIdOfTitle(id: int)
    requires IsInt32(id)
    ensures TitleId(Title(id)) == Some(id)
  {
    var d := IntToString(id);
    assert Without(d, ' ') by {
      forall k | 0 <= k < |d|
        ensures d[k] != ' '
      {
        if id < 0 && k > 0 {
          assert d[k] == d[1..][k - 1];
        }
      }
    }
    assert Title(id) == "Kanaal" + [' '] + d;
    SplitWord("Kanaal", ' ', d);
    SplitWithout(d, ' ');
    ParseIntToString(id);
  }

  function Found(id: Option<int>): seq<int>
  {
    if id.Some? then [id.value] else []
  }

  /** The ids collected from the tab titles, in tab order. */
  function TitleIds(titles: seq<string>): seq<int>
  {
    if titles == [] then [] else TitleIds(titles[..|titles| - 1]) + Found(TitleId(titles[|titles| - 1]))
  }

  /** The titles of tabs with the given ids. */
  function Titles(ids: seq<int>): (r: seq<string>)
    ensures |r| == |ids|
  {
    if ids == [] then [] else Titles(ids[..|ids| - 1]) + [Title(ids[|ids| - 1])]
  }

  /** The panel's own titles give back exactly its ids. */
  lemma {:induction false} TitleIdsOfTitles(ids: seq<int>)
    requires AllInt32(ids)
    ensures TitleIds(Titles(ids)) == ids
  {
    if ids != [] {
      var init, last := ids[..|ids| - 1], ids[|ids| - 1];
      TitlesSnoc(ids);
      TitleIdsOfTitles(init);
      TitleIdOfTitle(last);
      InitLast(ids);
    }
  }

  lemma InitLast<T>(s: seq<T>)
    requires s != []
    ensures s == s[..|s| - 1] + [s[|s| - 1]]
  {
  }

  lemma TitlesSnoc(ids: seq<int>)
    requires ids != []
    ensures var t := Titles(ids);
            t[..|t| - 1] == Titles(ids[..|ids| - 1]) && t[|t| - 1] == Title(ids[|ids| - 1])
  {
  }

  /** The collected ids are 32-bit integers. */
  lemma {:induction false} TitleIdsInt32(titles: seq<string>)
    ensures AllInt32(TitleIds(titles))
  {
    if titles != [] {
      TitleIdsInt32(titles[..|titles| - 1]);
    }
  }

  lemma {:induction false} EntriesSnoc(ids: seq<int>, id: int)
    ensures Entries(ids + [id]) == Entries(ids) + EntryLine(id)
  {
    if ids == [] {
      assert [] + [id] == [id];
    } else {
      EntriesSnoc(ids[1..], id);
      assert (ids + [id])[1..] == ids[1..] + [id];
      AppendAssoc(EntryLine(ids[0]), Entries(ids[1..]), EntryLine(id));
    }
  }

  /** The text `SaveChannelIds` writes for the panel's tab titles. */
  function SavedText(titles: seq<string>): string
  {
    Serialize(SortDistinct(TitleIds(titles)))
  }

  /** One round of the title loop. */
  lemma TitleRound(titles: seq<string>, i: nat)
    requires i < |titles|
    ensures TitleIds(titles[..i + 1]) == TitleIds(titles[..i]) + Found(TitleId(titles[i]))
  {
    assert titles[..i + 1][..i] == titles[..i];
  }

  /** One round of the line loop. */
  lemma LineRound(ids: seq<int>, k: nat)
    requires k < |ids|
    ensures Opening + Entries(ids[..k]) + EntryLine(ids[k]) == Opening + Entries(ids[..k + 1])
  {
    var e, line := Entries(ids[..k]), EntryLine(ids[k]);
    assert Entries(ids[..k + 1]) == e + line by {
      EntriesSnoc(ids[..k], ids[k]);
      assert ids[..k + 1] == ids[..k] + [ids[k]];
    }
    AppendAssoc(Opening, e, line);
  }

  /** Reads the ids from the titles, sorts them without duplicates, and joins the lines
      of the file. */
  method SaveChannelIds(titles: seq<string>) returns (text: string)
    ensures text == SavedText(titles)
  {
    var ids: seq<int> := [];
    var i := 0;
    while i < |titles|
      invariant 0 <= i <= |titles|
      invariant ids == TitleIds(titles[..i])
    {
      TitleRound(titles, i);
      var parts := Split(titles[i], ' ');
      if |parts| > 1 {
        var id := ParseInt(parts[1]);
        if id.Some? {
          ids := ids + [id.value];
        }
      }
      i := i + 1;
    }
    assert titles[..i] == titles;
    ids := SortDistinct(ids);
    text := Opening;
    var k := 0;
    while k < |ids|
      invariant 0 <= k <= |ids|
      invariant text == Opening + Entries(ids[..k])
    {
      LineRound(ids, k);
      text := text + EntryLine(ids[k]);
      k := k + 1;
    }
    assert ids[..k] == ids;
    text := text + Closing;
  }

  lemma PositivesSameElems(a: seq<int>, b: seq<int>)
    requires Elems(a) == Elems(b)
    ensures Elems(Positives(a)) == Elems(Positives(b))
  {
    PositivesElems(a);
    PositivesElems(b);
    forall x
      ensures x in Elems(Positives(a)) <==> x in Elems(Positives(b))
    {
      assert x in a <==> x in Elems(a);
      assert x in b <==> x in Elems(b);
    }
  }

  lemma SortDistinctElems(a: seq<int>, b: seq<int>)
    requires Elems(a) == Elems(b)
    ensures SortDistinct(a) == SortDistinct(b)
  {
    SortDistinctSpec(a);
    SortDistinctSpec(b);
    SortedUnique(SortDistinct(a), SortDistinct(b));
  }

  lemma SortDistinctInt32(s: seq<int>)
    requires AllInt32(s)
    ensures AllInt32(SortDistinct(s))
  {
    SortDistinctSpec(s);
    var r := SortDistinct(s);
    forall i | 0 <= i < |r|
      ensures IsInt32(r[i])
    {
      assert r[i] in Elems(r);
      var j :| 0 <= j < |s| && s[j] == r[i];
    }
  }

  /** Loading what was saved gives the distinct positive ids of the titles, ascending. */
  lemma SaveLoadRoundTrip(titles: seq<string>)
    ensures Loaded(Some(SavedText(titles))) == SortDistinct(Positives(TitleIds(titles)))
  {
    var ids := TitleIds(titles);
    TitleIdsInt32(titles);
    SortDistinctInt32(ids);
    SerializeRoundTrip(SortDistinct(ids));
    SortDistinctSpec(ids);
    PositivesSameElems(SortDistinct(ids), ids);
    SortDistinctElems(Positives(SortDistinct(ids)), Positives(ids));
  }
}
