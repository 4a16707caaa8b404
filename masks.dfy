/**
 * Removal by index: the parser of index lists such as `0,3-5` that yields a
 * boolean mask (getIndices), and the filter that drops the marked items of a
 * list (removeSlice, one typed instance per list).
 */
module Masks {
  import opened Wrappers
  import opened Text

  /** Whether position i is marked; positions past the end of the mask are not. */
  predicate Marked(mask: seq<bool>, i: nat) {
    i < |mask| && mask[i]
  }

  /** The items of s at unmarked positions, in their original order. */
  function Kept<T>(s: seq<T>, mask: seq<bool>): seq<T> {
    if s == [] then []
    else Kept(s[..|s| - 1], mask) + (if Marked(mask, |s| - 1) then [] else [s[|s| - 1]])
  }

  /** The mask as seen from position k on. */
  function From(mask: seq<bool>, k: nat): (r: seq<bool>)
    ensures forall i: nat :: Marked(r, i) == Marked(mask, k + i)
  {
    if k <= |mask| then mask[k..] else []
  }

  /** Filtering a concatenation filters each part, the second part against the rest of the mask. */
  lemma {:induction false} KeptAppend<T>(a: seq<T>, b: seq<T>, mask: seq<bool>)
    ensures Kept(a + b, mask) == Kept(a, mask) + Kept(b, From(mask, |a|))
  {
    if b == [] {
      assert a + b == a;
    } else {
      var b' := b[..|b| - 1];
      KeptAppend(a, b', mask);
      assert (a + b)[..|a + b| - 1] == a + b';
      assert Marked(From(mask, |a|), |b| - 1) == Marked(mask, |a| + |b| - 1);
    }
  }

  /** Nothing marked within the list: nothing removed. */
  lemma {:induction false} KeptUnmarked<T>(s: seq<T>, mask: seq<bool>)
    requires forall i: nat :: i < |s| ==> !Marked(mask, i)
    ensures Kept(s, mask) == s
  {
    if s != [] {
      var n := |s| - 1;
      KeptUnmarked(s[..n], mask);
      assert !Marked(mask, n);
      assert s[..n] + [s[n]] == s;
    }
  }

  /** Only the last position marked: the list loses its last item. */
  lemma KeptDropsLast<T>(s: seq<T>, mask: seq<bool>)
    requires |s| > 0 && |mask| == |s|
    requires forall i :: 0 <= i < |s| ==> (mask[i] <==> i == |s| - 1)
    ensures Kept(s, mask) == s[..|s| - 1]
  {
    KeptUnmarked(s[..|s| - 1], mask);
  }

  /** An item at an unmarked position survives the filter. */
  lemma {:induction false} KeptMember<T>(s: seq<T>, mask: seq<bool>, i: nat)
    requires i < |s| && !Marked(mask, i)
    ensures s[i] in Kept(s, mask)
  {
    var n := |s| - 1;
    var init := s[..n];
    if i < n {
      KeptMember(init, mask, i);
      assert s[i] == init[i];
      assert Kept(s, mask) == Kept(init, mask) + (if Marked(mask, n) then [] else [s[n]]);
    }
  }

  /** Filtering only removes: every survivor is an item of the list. */
  lemma {:induction false} KeptFrom<T>(s: seq<T>, mask: seq<bool>, x: T)
    requires x in Kept(s, mask)
    ensures x in s
  {
    var n := |s| - 1;
    var init := s[..n];
    assert Kept(s, mask) == Kept(init, mask) + (if Marked(mask, n) then [] else [s[n]]);
    if x in Kept(init, mask) {
      KeptFrom(init, mask, x);
      var j :| 0 <= j < n && init[j] == x;
      assert s[j] == x;
    } else {
      assert x == s[n];
    }
  }

  /** A list without repeats keeps none after filtering, and a removed item is gone. */
  lemma {:induction false} KeptDistinct<T>(s: seq<T>, mask: seq<bool>)
    requires forall i, j :: 0 <= i < j < |s| ==> s[i] != s[j]
    ensures forall i, j :: 0 <= i < j < |Kept(s, mask)| ==> Kept(s, mask)[i] != Kept(s, mask)[j]
    ensures forall i: nat :: i < |s| && Marked(mask, i) ==> s[i] !in Kept(s, mask)
  {
    if s != [] {
      var n := |s| - 1;
      var init := s[..n];
      KeptDistinct(init, mask);
      var k := Kept(init, mask);
      assert s[n] !in init;
      assert s[n] !in k by {
        if s[n] in k {
          KeptFrom(init, mask, s[n]);
        }
      }
      forall i: nat | i < n && Marked(mask, i)
        ensures s[i] !in Kept(s, mask)
      {
        assert s[i] == init[i];
        assert s[i] != s[n];
      }
    }
  }

  /** removeSlice: rebuild the list from the items whose mask bit is not set. */
  method RemoveSlice<T>(s: seq<T>, removes: seq<bool>) returns (r: seq<T>)
    ensures r == Kept(s, removes)
  {
    if |s| == 0 {
      return s;
    }
    r := [];
    var i := 0;
    while i < |s|
      invariant 0 <= i <= |s|
      invariant r == Kept(s[..i], removes)
    {
      assert s[..i + 1][..i] == s[..i];
      if !(i < |removes| && removes[i]) {
        r := r + [s[i]];
      }
      i := i + 1;
    }
    assert s[..|s|] == s;
  }

  /** The split of one mask over two consecutive lists: positions below k, then the rest. */
  method SplitMask(mask: seq<bool>, k: nat) returns (front: seq<bool>, back: seq<bool>)
    ensures front + back == mask
    ensures |front| == if k <= |mask| then k else |mask|
  {
    front, back := [], [];
    for pos := 0 to |mask|
      invariant front + back == mask[..pos]
      invariant |front| == if k <= pos then k else pos
    {
      if pos < k {
        front := front + [mask[pos]];
      } else {
        back := back + [mask[pos]];
      }
    }
  }

  /** What one comma-separated token asks for: an index, or an inclusive range `a-b`. */
  predicate TokenSelects(token: string, k: int) {
    var parts := Split(token, '-');
    if |parts| == 2 then
      Atoi(parts[0]).Some? && Atoi(parts[1]).Some?
      && Atoi(parts[0]).value <= k <= Atoi(parts[1]).value
    else
      Atoi(token) == Some(k)
  }

  /**
   * Whether index k of a list of n items is selected by an index list: a blank
   * list selects the last item; otherwise the in-range indices its tokens name.
   * Tokens that are not integers or ranges select nothing.
   */
  ghost predicate Selects(n: nat, spec: string, k: int) {
    && 0 <= k < n
    && var t := TrimSpace(spec);
       if t == [] then k == n - 1
       else exists i :: 0 <= i < |Split(t, ',')| && TokenSelects(Split(t, ',')[i], k)
  }

  /** The decimal texts of a..b, as getIndices expands a range. */
  function RangeStrings(a: int, b: int): (r: seq<string>)
    decreases b - a
  {
    if b < a then [] else RangeStrings(a, b - 1) + [Itoa(b)]
  }

  /** The index texts one token contributes. */
  function TokenItems(token: string): seq<string> {
    var parts := Split(token, '-');
    if |parts| == 2 then
      if Atoi(parts[0]).Some? && Atoi(parts[1]).Some? then
        RangeStrings(Atoi(parts[0]).value, Atoi(parts[1]).value)
      else []
    else [token]
  }

  function Items(tokens: seq<string>): seq<string> {
    if tokens == [] then [] else Items(tokens[..|tokens| - 1]) + TokenItems(tokens[|tokens| - 1])
  }

  /** Whether one of the index texts denotes k. */
  predicate Hit(items: seq<string>, k: int) {
    items != [] && (Hit(items[..|items| - 1], k) || Atoi(items[|items| - 1]) == Some(k))
  }

  lemma HitStep(items: seq<string>, x: nat)
    requires x < |items|
    ensures forall k :: Hit(items[..x + 1], k) <==> Hit(items[..x], k) || Atoi(items[x]) == Some(k)
  {
    assert items[..x + 1][..x] == items[..x];
  }

  lemma {:induction false} HitAppend(a: seq<string>, b: seq<string>, k: int)
    ensures Hit(a + b, k) <==> Hit(a, k) || Hit(b, k)
  {
    if b != [] {
      HitAppend(a, b[..|b| - 1], k);
      assert (a + b)[..|a + b| - 1] == a + b[..|b| - 1];
    } else {
      assert a + b == a;
    }
  }

  lemma {:induction false} HitRange(a: int, b: int, k: int)
    requires MinInt64 <= a && b <= MaxInt64
    ensures Hit(RangeStrings(a, b), k) <==> a <= k <= b
    decreases b - a
  {
    if a <= b {
      var r := RangeStrings(a, b);
      var init := RangeStrings(a, b - 1);
      assert r == init + [Itoa(b)];
      assert r[..|r| - 1] == init && r[|r| - 1] == Itoa(b);
      assert Hit(r, k) <==> Hit(init, k) || Atoi(Itoa(b)) == Some(k);
      assert Hit(init, k) <==> a <= k <= b - 1 by {
        HitRange(a, b - 1, k);
      }
      assert Atoi(Itoa(b)) == Some(b) by {
        AtoiItoa(b);
      }
    } else {
      assert RangeStrings(a, b) == [];
    }
  }

  lemma HitToken(token: string, k: int)
    ensures Hit(TokenItems(token), k) <==> TokenSelects(token, k)
  {
    var parts := Split(token, '-');
    if |parts| == 2 && Atoi(parts[0]).Some? && Atoi(parts[1]).Some? {
      HitRange(Atoi(parts[0]).value, Atoi(parts[1]).value, k);
    } else if |parts| != 2 {
      assert [token][..0] == [];
    }
  }

  /** Whether one of the tokens selects k. */
  predicate AnySelects(tokens: seq<string>, k: int) {
    exists i :: 0 <= i < |tokens| && TokenSelects(tokens[i], k)
  }

  lemma AnySelectsSnoc(tokens: seq<string>, k: int)
    requires tokens != []
    ensures AnySelects(tokens, k) <==> AnySelects(tokens[..|tokens| - 1], k) || TokenSelects(tokens[|tokens| - 1], k)
  {
    var n := |tokens| - 1;
    var init := tokens[..n];
    if AnySelects(tokens, k) && !TokenSelects(tokens[n], k) {
      var i :| 0 <= i < |tokens| && TokenSelects(tokens[i], k);
      assert i != n;
      assert init[i] == tokens[i];
      assert AnySelects(init, k);
    }
    if AnySelects(init, k) {
      var i :| 0 <= i < n && TokenSelects(init[i], k);
      assert tokens[i] == init[i];
      assert AnySelects(tokens, k);
    }
    if TokenSelects(tokens[n], k) {
      assert AnySelects(tokens, k);
    }
  }

  lemma {:induction false} HitItems(tokens: seq<string>, k: int)
    ensures Hit(Items(tokens), k) <==> AnySelects(tokens, k)
  {
    if tokens != [] {
      var n := |tokens| - 1;
      assert Items(tokens) == Items(tokens[..n]) + TokenItems(tokens[n]);
      HitItems(tokens[..n], k);
      HitAppend(Items(tokens[..n]), TokenItems(tokens[n]), k);
      HitToken(tokens[n], k);
      AnySelectsSnoc(tokens, k);
    }
  }

  /** The first pass of getIndices: every token's index texts, ranges spelled out. */
  method ExpandTokens(tokens: seq<string>) returns (items: seq<string>)
    ensures items == Items(tokens)
  {
    items := [];
    for t := 0 to |tokens|
      invariant items == Items(tokens[..t])
    {
      assert tokens[..t + 1][..t] == tokens[..t];
      var vi := tokens[t];
      var vj := Split(vi, '-');
      if |vj| == 2 {
        var i := Atoi(vj[0]);
        if i.None? {
          continue;
        }
        var j := Atoi(vj[1]);
        if j.None? {
          continue;
        }
        var range := RangeTexts(i.value, j.value);
        items := items + range;
      } else {
        items := items + [vi];
      }
    }
    assert tokens[..|tokens|] == tokens;
  }

  /** The inner loop of getIndices over a range `a-b`: the decimal text of every k from a to b. */
  method RangeTexts(a: int, b: int) returns (texts: seq<string>)
    ensures texts == RangeStrings(a, b)
  {
    texts := [];
    var k := a;
    while k <= b
      invariant a <= k && (k <= b + 1 || k == a)
      invariant texts == RangeStrings(a, k - 1)
      decreases b - k
    {
      texts := texts + [Itoa(k)];
      k := k + 1;
    }
  }

  /** k++ on Go's int64: one past MaxInt64 wraps round to MinInt64. */
  function Inc64(k: int): (r: int)
    requires MinInt64 <= k <= MaxInt64
    ensures MinInt64 <= r <= MaxInt64
    ensures k < MaxInt64 ==> r == k + 1
  {
    if k == MaxInt64 then MinInt64 else k + 1
  }

  /**
   * The range loop of getIndices as written, on a 64-bit counter, run for at
   * most `fuel` rounds from k: None when the loop is still going once the fuel
   * is spent, otherwise the counter values whose texts it appended.
   */
  function WrappingCounts(k: int, b: int, fuel: nat): Option<seq<int>>
    requires MinInt64 <= k <= MaxInt64
    decreases fuel
  {
    if b < k then Some([])
    else if fuel == 0 then None
    else
      var rest := WrappingCounts(Inc64(k), b, fuel - 1);
      if rest.None? then None else Some([k] + rest.value)
  }

  /** The decimal text of each counter value. */
  function Texts(ks: seq<int>): (r: seq<string>)
    ensures |r| == |ks|
  {
    if ks == [] then [] else [Itoa(ks[0])] + Texts(ks[1..])
  }

  /** A range whose upper end is MaxInt64 never ends: the counter wraps before it can pass the end. */
  lemma {:induction false} RangeToMaxNeverEnds(a: int, fuel: nat)
    requires MinInt64 <= a <= MaxInt64
    ensures WrappingCounts(a, MaxInt64, fuel) == None
    decreases fuel
  {
    if fuel > 0 {
      RangeToMaxNeverEnds(Inc64(a), fuel - 1);
    }
  }

  lemma {:induction false} RangeStringsCons(a: int, b: int)
    requires a <= b
    ensures RangeStrings(a, b) == [Itoa(a)] + RangeStrings(a + 1, b)
    decreases b - a
  {
    if a < b {
      RangeStringsCons(a, b - 1);
    } else {
      assert RangeStrings(a, b - 1) == [] && RangeStrings(a + 1, b) == [];
    }
  }

  /**
   * Below MaxInt64 the loop as written does end, after b - a + 1 rounds, with
   * exactly the texts RangeTexts returns.
   */
  lemma {:induction false} WrappingRangeAgrees(a: int, b: int, fuel: nat)
    requires MinInt64 <= a <= MaxInt64 && b < MaxInt64
    requires fuel > b - a
    ensures WrappingCounts(a, b, fuel).Some?
    ensures Texts(WrappingCounts(a, b, fuel).value) == RangeStrings(a, b)
    decreases fuel
  {
    if a <= b {
      var rest := WrappingCounts(a + 1, b, fuel - 1);
      WrappingRangeAgrees(a + 1, b, fuel - 1);
      RangeStringsCons(a, b);
      assert ([a] + rest.value)[1..] == rest.value;
    }
  }

  /**
   * getIndices: the mask of the n items an index list selects. The caller
   * guarantees a non-empty list when the index list is blank.
   */
  method GetIndices(n: nat, cmdArgs: string) returns (mask: seq<bool>)
    requires n > 0 || TrimSpace(cmdArgs) != []
    ensures |mask| == n
    ensures forall k :: 0 <= k < n ==> (mask[k] <==> Selects(n, cmdArgs, k))
  {
    var args := TrimSpace(cmdArgs);
    if |args| == 0 {
      var marks := new bool[n](_ => false);
      marks[n - 1] := true;
      return marks[..];
    }

    var tokens := Split(args, ',');
    var items := ExpandTokens(tokens);
    mask := MarkItems(n, items);
    forall k | 0 <= k < n
      ensures mask[k] <==> Selects(n, cmdArgs, k)
    {
      SelectsByItems(n, cmdArgs, k);
    }
  }

  /** A non-blank index list selects exactly the in-range indices its expanded items name. */
  lemma SelectsByItems(n: nat, spec: string, k: int)
    requires TrimSpace(spec) != [] && 0 <= k < n
    ensures Selects(n, spec, k) <==> Hit(Items(Split(TrimSpace(spec), ',')), k)
  {
    HitItems(Split(TrimSpace(spec), ','), k);
  }

  /** The second pass of getIndices: mark every in-range index an index text names, skip the rest. */
  method MarkItems(n: nat, items: seq<string>) returns (mask: seq<bool>)
    ensures |mask| == n
    ensures forall k :: 0 <= k < n ==> (mask[k] <==> Hit(items, k))
  {
    var marks := new bool[n](_ => false);
    for x := 0 to |items|
      invariant forall k :: 0 <= k < n ==> (marks[k] <==> Hit(items[..x], k))
    {
      HitStep(items, x);
      var itemIndexStr := items[x];
      if itemIndexStr == [] {
        continue;
      }
      var itemIndex := Atoi(itemIndexStr);
      if itemIndex.None? {
        continue;
      }
      if itemIndex.value < 0 || itemIndex.value >= n {
        continue;
      }
      marks[itemIndex.value] := true;
    }
    assert items[..|items|] == items;
    mask := marks[..];
  }
}
