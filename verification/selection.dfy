/**
 * The two-tier selection policy of `similar` and of the console matcher: take
 * the corpus words most similar to the query, emit the emojis of their small
 * categories first (best word first, each emoji once), and only when that
 * yields fewer than NUM_EMOJIS names fall back to the large categories,
 * smallest category first; finally cut the list at `num`.
 */
module Selection {

  import opened Ranking
  import Sorting
  import Top

  /** The default number of emojis to return. */
  const NUM_EMOJIS: int := 10

  /** Categories with at least this many emojis are only used as a fallback. */
  const CATEGORY_LENGTH: nat := 8

  /** A selected corpus word's emoji names, with the word's similarity to the query. */
  datatype Category = Category(names: seq<string>, score: real)

  /** The category's emojis, each carrying the category's score. */
  function Spread(c: Category): (r: seq<Scored>)
    ensures |r| == |c.names|
    ensures forall j :: 0 <= j < |r| ==> r[j] == Scored(c.names[j], c.score)
  {
    seq(|c.names|, j requires 0 <= j < |c.names| => Scored(c.names[j], c.score))
  }

  /** All categories' emojis in category order. */
  function Expand(cats: seq<Category>): seq<Scored>
  {
    if |cats| == 0 then [] else Expand(cats[..|cats| - 1]) + Spread(cats[|cats| - 1])
  }

  /** Every expanded entry is an emoji of one of the categories, with its score. */
  lemma {:induction false} ExpandFrom(cats: seq<Category>)
    ensures forall x :: x in Expand(cats) ==> exists c :: c in cats && x.name in c.names && x.score == c.score
  {
    if |cats| > 0 {
      var pre := cats[..|cats| - 1];
      var c := cats[|cats| - 1];
      ExpandFrom(pre);
      forall x | x in Expand(cats)
        ensures exists d :: d in cats && x.name in d.names && x.score == d.score
      {
        if x in Expand(pre) {
          var d :| d in pre && x.name in d.names && x.score == d.score;
          assert d in cats;
        } else {
          assert x in Spread(c);
          var j :| 0 <= j < |Spread(c)| && Spread(c)[j] == x;
          assert x.name == c.names[j];
        }
      }
    }
  }

  predicate IsSmall(c: Category)
  {
    |c.names| < CATEGORY_LENGTH
  }

  /** The categories the first pass expands, in order. */
  function Small(cats: seq<Category>): seq<Category>
  {
    if |cats| == 0 then []
    else Small(cats[..|cats| - 1]) + (if IsSmall(cats[|cats| - 1]) then [cats[|cats| - 1]] else [])
  }

  /** `goodcategories`: the categories the first pass sets aside, in order. */
  function Large(cats: seq<Category>): seq<Category>
  {
    if |cats| == 0 then []
    else Large(cats[..|cats| - 1]) + (if IsSmall(cats[|cats| - 1]) then [] else [cats[|cats| - 1]])
  }

  /** The first pass expands exactly the small categories, the fallback exactly the large ones. */
  lemma {:induction false} SmallLargeMembers(cats: seq<Category>)
    ensures forall c :: c in Small(cats) <==> c in cats && IsSmall(c)
    ensures forall c :: c in Large(cats) <==> c in cats && !IsSmall(c)
  {
    if |cats| > 0 {
      var pre := cats[..|cats| - 1];
      assert cats == pre + [cats[|cats| - 1]];
      SmallLargeMembers(pre);
    }
  }

  /** The sort key of `goodcategories.sort(key=lambda x: len(x[0]))`. */
  function CatSize(c: Category): real
  {
    |c.names| as real
  }

  /** What the first pass emits. */
  function FirstPass(cats: seq<Category>): seq<Scored>
  {
    Dedup(Expand(Small(cats)))
  }

  /** The candidates of the fallback: large categories by ascending size, stably. */
  function Fallback(cats: seq<Category>): seq<Scored>
  {
    Expand(Sorting.SortBy(Large(cats), CatSize))
  }

  /** Every first-pass emission comes from a small category, with that category's score. */
  lemma FirstPassFromSmall(cats: seq<Category>)
    ensures forall x :: x in FirstPass(cats) ==>
              exists c :: c in cats && IsSmall(c) && x.name in c.names && x.score == c.score
  {
    var xs := Expand(Small(cats));
    ExpandFrom(Small(cats));
    SmallLargeMembers(cats);
    forall x | x in FirstPass(cats)
      ensures exists c :: c in cats && IsSmall(c) && x.name in c.names && x.score == c.score
    {
      DedupOntoFrom([], xs);
      var i :| 0 <= i < |FirstPass(cats)| && FirstPass(cats)[i] == x;
      assert x in xs;
      var c :| c in Small(cats) && x.name in c.names && x.score == c.score;
    }
  }

  /**
   * The fallback visits the large categories by ascending size, each exactly as
   * often as it was collected, and categories of equal size keep the order in
   * which the first pass collected them (Python's sort is stable).
   */
  lemma FallbackOrder(cats: seq<Category>)
    ensures var order := Sorting.SortBy(Large(cats), CatSize);
            && Fallback(cats) == Expand(order)
            && multiset(order) == multiset(Large(cats))
            && Sorting.SortedBy(order, CatSize)
            && forall k :: Sorting.WithKey(order, CatSize, k) == Sorting.WithKey(Large(cats), CatSize, k)
  {
    forall k {
      Sorting.SortByIsStable(Large(cats), CatSize, k);
    }
  }

  /** Every fallback candidate comes from a large category, with that category's score. */
  lemma FallbackFromLarge(cats: seq<Category>)
    ensures forall x :: x in Fallback(cats) ==>
              exists c :: c in cats && !IsSmall(c) && x.name in c.names && x.score == c.score
  {
    var sorted := Sorting.SortBy(Large(cats), CatSize);
    ExpandFrom(sorted);
    SmallLargeMembers(cats);
    forall x | x in Fallback(cats)
      ensures exists c :: c in cats && !IsSmall(c) && x.name in c.names && x.score == c.score
    {
      var c :| c in sorted && x.name in c.names && x.score == c.score;
      Sorting.SortByMembers(Large(cats), CatSize, c);
    }
  }

  /** Taking a prefix keeps names distinct and adds no entry. */
  lemma PrefixOfEntries(s: seq<Scored>, n: int)
    ensures DistinctNames(s) ==> DistinctNames(Prefix(s, n))
    ensures forall x :: x in Prefix(s, n) ==> x in s
  {
    var r := Prefix(s, n);
    assert forall i :: 0 <= i < |r| ==> r[i] == s[i];
  }

  /** `goodnames` before the cut: the first pass, extended by the fallback when it is short. */
  function Emitted(cats: seq<Category>): seq<Scored>
  {
    var first := FirstPass(cats);
    if |first| < NUM_EMOJIS then DedupOnto(first, Fallback(cats)) else first
  }

  /** No name is emitted twice. */
  lemma EmittedDistinct(cats: seq<Category>)
    ensures DistinctNames(Emitted(cats))
  {
    DedupOntoDistinct([], Expand(Small(cats)));
    DedupOntoDistinct(FirstPass(cats), Fallback(cats));
  }

  /** Each emitted name comes from a chosen category, with that category's score. */
  lemma EmittedFromCategories(cats: seq<Category>)
    ensures forall x :: x in Emitted(cats) ==> exists c :: c in cats && x.name in c.names && x.score == c.score
  {
    var first := FirstPass(cats);
    var all := Emitted(cats);
    FirstPassFromSmall(cats);
    FallbackFromLarge(cats);
    DedupOntoFrom(first, Fallback(cats));
    forall x | x in all
      ensures exists c :: c in cats && x.name in c.names && x.score == c.score
    {
      var i :| 0 <= i < |all| && all[i] == x;
      if i < |first| {
        assert x in first;
      } else {
        assert x in Fallback(cats);
      }
    }
  }

  /**
   * The result of the selection on the chosen categories (in descending score
   * order) and the requested count.  At most `num` entries, no name twice, and
   * every entry is an emoji of a chosen category paired with its score.
   */
  function Select(cats: seq<Category>, num: int): (r: seq<Scored>)
    ensures num >= 0 ==> |r| <= num
    ensures DistinctNames(r)
    ensures forall x :: x in r ==> exists c :: c in cats && x.name in c.names && x.score == c.score
  {
    EmittedDistinct(cats);
    EmittedFromCategories(cats);
    PrefixOfEntries(Emitted(cats), num);
    Prefix(Emitted(cats), num)
  }

  /** The categories of the chosen corpus-map entries, in the chosen order (`WCL[index][1]`, `dotprod[index]`). */
  function Categories(wcl: seq<(string, seq<string>)>, scores: seq<real>, chosen: seq<nat>): (r: seq<Category>)
    requires |scores| == |wcl|
    requires forall i :: 0 <= i < |chosen| ==> chosen[i] < |wcl|
    ensures |r| == |chosen|
    ensures forall i :: 0 <= i < |r| ==> r[i] == Category(wcl[chosen[i]].1, scores[chosen[i]])
  {
    seq(|chosen|, i requires 0 <= i < |chosen| => Category(wcl[chosen[i]].1, scores[chosen[i]]))
  }

  /** Each selected emoji is in the category of one of the chosen indices, with that index's score. */
  lemma SelectFromMatches(wcl: seq<(string, seq<string>)>, scores: seq<real>, chosen: seq<nat>, num: int, x: Scored)
    requires |scores| == |wcl|
    requires forall i :: 0 <= i < |chosen| ==> chosen[i] < |wcl|
    requires x in Select(Categories(wcl, scores, chosen), num)
    ensures exists j :: 0 <= j < |chosen| && x.name in wcl[chosen[j]].1 && x.score == scores[chosen[j]]
  {
    var cats := Categories(wcl, scores, chosen);
    var c :| c in cats && x.name in c.names && x.score == c.score;
    var j :| 0 <= j < |cats| && cats[j] == c;
  }

  lemma {:induction false} ExpandAppend(a: seq<Category>, b: seq<Category>)
    ensures Expand(a + b) == Expand(a) + Expand(b)
    decreases |b|
  {
    if |b| == 0 {
      assert a + b == a;
    } else {
      var b' := b[..|b| - 1];
      assert b == b' + [b[|b| - 1]];
      assert a + b == (a + b') + [b[|b| - 1]];
      ExpandAppend(a, b');
    }
  }

  lemma ExpandNext(cats: seq<Category>, k: nat)
    requires k < |cats|
    ensures Expand(cats[..k + 1]) == Expand(cats[..k]) + Spread(cats[k])
  {
    assert cats[..k + 1][..k] == cats[..k];
  }

  /** Expanding the first k categories and then j names of the next is a prefix of the whole expansion. */
  lemma ExpandSplit(cats: seq<Category>, k: nat, j: nat)
    requires k < |cats| && j <= |cats[k].names|
    ensures Expand(cats) == (Expand(cats[..k]) + Spread(cats[k])[..j]) + (Spread(cats[k])[j..] + Expand(cats[k + 1..]))
  {
    assert cats == cats[..k + 1] + cats[k + 1..];
    ExpandAppend(cats[..k + 1], cats[k + 1..]);
    ExpandNext(cats, k);
    Regroup(Expand(cats[..k]), Spread(cats[k]), Expand(cats[k + 1..]), j);
  }

  lemma Regroup<T>(a: seq<T>, b: seq<T>, c: seq<T>, j: nat)
    requires j <= |b|
    ensures (a + b) + c == (a + b[..j]) + (b[j..] + c)
  {
    assert b == b[..j] + b[j..];
  }

  /** De-duplicating a prefix of a list gives a prefix of de-duplicating the whole list. */
  lemma DedupOntoPrefix(acc: seq<Scored>, xs: seq<Scored>, ys: seq<Scored>)
    ensures var d := DedupOnto(acc, xs);
            |d| <= |DedupOnto(acc, xs + ys)| && DedupOnto(acc, xs + ys)[..|d|] == d
  {
    DedupOntoAppend(acc, xs, ys);
  }

  /** The inner loop over one category's names: append each name not yet in `nameset`. */
  method AddCategory(goodnames: seq<Scored>, nameset: set<string>, names: seq<string>, similarity: real)
    returns (goodnames': seq<Scored>, nameset': set<string>)
    requires nameset == Names(goodnames)
    ensures goodnames' == DedupOnto(goodnames, Spread(Category(names, similarity)))
    ensures nameset' == Names(goodnames')
  {
    ghost var c := Category(names, similarity);
    goodnames', nameset' := goodnames, nameset;
    var j := 0;
    while j < |names|
      invariant 0 <= j <= |names|
      invariant goodnames' == DedupOnto(goodnames, Spread(c)[..j])
      invariant nameset' == Names(goodnames')
    {
      var name := names[j];
      assert Spread(c)[..j + 1] == Spread(c)[..j] + [Scored(name, similarity)];
      DedupOntoSnoc(goodnames, Spread(c)[..j], Scored(name, similarity));
      if name !in nameset' {
        NamesSnoc(goodnames', Scored(name, similarity));
        goodnames' := goodnames' + [Scored(name, similarity)];
        nameset' := nameset' + {name};
      }
      j := j + 1;
    }
    assert Spread(c)[..j] == Spread(c);
  }

  /** The first loop over the chosen entries: expand small categories, set aside large ones. */
  method FirstLoop(wcl: seq<(string, seq<string>)>, scores: seq<real>, sortedmatches: seq<nat>)
    returns (goodnames: seq<Scored>, goodcategories: seq<Category>, nameset: set<string>)
    requires |scores| == |wcl|
    requires forall i :: 0 <= i < |sortedmatches| ==> sortedmatches[i] < |wcl|
    ensures goodnames == FirstPass(Categories(wcl, scores, sortedmatches))
    ensures goodcategories == Large(Categories(wcl, scores, sortedmatches))
    ensures nameset == Names(goodnames)
  {
    ghost var cats := Categories(wcl, scores, sortedmatches);
    goodnames, goodcategories, nameset := [], [], {};
    var i := 0;
    while i < |sortedmatches|
      invariant 0 <= i <= |sortedmatches|
      invariant goodnames == Dedup(Expand(Small(cats[..i])))
      invariant nameset == Names(goodnames)
      invariant goodcategories == Large(cats[..i])
    {
      var index := sortedmatches[i];
      var names := wcl[index].1;
      assert cats[i] == Category(names, scores[index]);
      assert cats[..i + 1][..i] == cats[..i];
      if |names| < CATEGORY_LENGTH {
        goodnames, nameset := AddCategory(goodnames, nameset, names, scores[index]);
        assert Large(cats[..i + 1]) == Large(cats[..i]);
        assert Small(cats[..i + 1]) == Small(cats[..i]) + [cats[i]];
        ExpandAppend(Small(cats[..i]), [cats[i]]);
        assert [cats[i]][..0] == [];
        DedupOntoAppend([], Expand(Small(cats[..i])), Spread(cats[i]));
      } else {
        goodcategories := goodcategories + [Category(names, scores[index])];
        assert Small(cats[..i + 1]) == Small(cats[..i]);
        assert Large(cats[..i + 1]) == Large(cats[..i]) + [cats[i]];
      }
      i := i + 1;
    }
    assert cats[..i] == cats;
  }

  /** A list that is a prefix of `full` and either all of it or `num` long has the same cut at `num`. */
  lemma CutAgrees(g: seq<Scored>, full: seq<Scored>, num: int)
    requires |g| <= |full| && full[..|g|] == g
    requires g == full || |g| == num
    ensures Prefix(g, num) == Prefix(full, num)
  {
  }

  /** Stopping after j names of category k, with `num` names emitted, cuts like the complete fallback. */
  lemma StopAgrees(first: seq<Scored>, sorted: seq<Category>, k: nat, j: nat, g: seq<Scored>, num: int)
    requires k < |sorted| && j <= |sorted[k].names|
    requires g == DedupOnto(DedupOnto(first, Expand(sorted[..k])), Spread(sorted[k])[..j])
    requires |g| == num
    ensures Prefix(g, num) == Prefix(DedupOnto(first, Expand(sorted)), num)
  {
    ExpandSplit(sorted, k, j);
    DedupOntoAppend(first, Expand(sorted[..k]), Spread(sorted[k])[..j]);
    DedupOntoPrefix(first, Expand(sorted[..k]) + Spread(sorted[k])[..j],
                    Spread(sorted[k])[j..] + Expand(sorted[k + 1..]));
    CutAgrees(g, DedupOnto(first, Expand(sorted)), num);
  }

  /**
   * The fallback's inner loop over one category's names, which stops as soon
   * as `num` names are emitted; `j` counts the names it looked at.
   */
  method AddUntil(goodnames: seq<Scored>, nameset: set<string>, category: Category, num: int)
    returns (goodnames': seq<Scored>, nameset': set<string>, j: nat)
    requires nameset == Names(goodnames)
    ensures j <= |category.names|
    ensures goodnames' == DedupOnto(goodnames, Spread(category)[..j])
    ensures nameset' == Names(goodnames')
    ensures j < |category.names| ==> |goodnames'| == num
  {
    goodnames', nameset' := goodnames, nameset;
    j := 0;
    while j < |category.names|
      invariant 0 <= j <= |category.names|
      invariant goodnames' == DedupOnto(goodnames, Spread(category)[..j])
      invariant nameset' == Names(goodnames')
    {
      var name := category.names[j];
      assert Spread(category)[..j + 1] == Spread(category)[..j] + [Scored(name, category.score)];
      DedupOntoSnoc(goodnames, Spread(category)[..j], Scored(name, category.score));
      if name !in nameset' {
        NamesSnoc(goodnames', Scored(name, category.score));
        goodnames' := goodnames' + [Scored(name, category.score)];
        nameset' := nameset' + {name};
        if |goodnames'| == num {
          j := j + 1;
          return;
        }
      }
      j := j + 1;
    }
  }

  /**
   * The fallback loop with its two `break`s on `len(goodnames) == num`:
   * afterwards `goodnames[:num]` equals the cut of the complete fallback.
   */
  method FallbackLoop(first: seq<Scored>, nameset: set<string>, sorted: seq<Category>, num: int)
    returns (goodnames: seq<Scored>)
    requires nameset == Names(first)
    ensures Prefix(goodnames, num) == Prefix(DedupOnto(first, Expand(sorted)), num)
  {
    goodnames := first;
    var names := nameset;
    var k := 0;
    while k < |sorted|
      invariant 0 <= k <= |sorted|
      invariant goodnames == DedupOnto(first, Expand(sorted[..k]))
      invariant names == Names(goodnames)
    {
      var j;
      goodnames, names, j := AddUntil(goodnames, names, sorted[k], num);
      if |goodnames| == num {
        StopAgrees(first, sorted, k, j, goodnames, num);
        return;
      }
      assert j == |sorted[k].names|;
      assert Spread(sorted[k])[..j] == Spread(sorted[k]);
      assert sorted[..k + 1][..k] == sorted[..k];
      assert Expand(sorted[..k + 1]) == Expand(sorted[..k]) + Spread(sorted[k]);
      DedupOntoAppend(first, Expand(sorted[..k]), Spread(sorted[k]));
      k := k + 1;
    }
    assert sorted[..k] == sorted;
  }

  /**
   * The body of `similar` after the top selection: the first loop over the
   * chosen entries, the fallback when fewer than NUM_EMOJIS names were found,
   * and the final `goodnames[:num]`.  It computes `Select`.
   */
  method Similar(wcl: seq<(string, seq<string>)>, scores: seq<real>, sortedmatches: seq<nat>, num: int)
    returns (r: seq<Scored>)
    requires |scores| == |wcl|
    requires forall i :: 0 <= i < |sortedmatches| ==> sortedmatches[i] < |wcl|
    ensures r == Select(Categories(wcl, scores, sortedmatches), num)
  {
    var goodnames, goodcategories, nameset := FirstLoop(wcl, scores, sortedmatches);
    if |goodnames| < NUM_EMOJIS {
      goodcategories := Sorting.SortBy(goodcategories, CatSize);
      goodnames := FallbackLoop(goodnames, nameset, goodcategories, num);
    }
    r := Prefix(goodnames, num);
  }

  /**
   * First-pass emissions come first and in their order; anything after them
   * is a fallback candidate, and there is one only when the first pass found
   * fewer than NUM_EMOJIS names.
   */
  lemma SelectOrder(cats: seq<Category>, num: int)
    ensures var r := Select(cats, num);
            var first := FirstPass(cats);
            && (forall i :: 0 <= i < |r| && i < |first| ==> r[i] == first[i])
            && (forall i :: |first| <= i < |r| ==> |first| < NUM_EMOJIS && r[i] in Fallback(cats))
  {
    var all := Emitted(cats);
    var first := FirstPass(cats);
    var r := Select(cats, num);
    assert forall i :: 0 <= i < |r| ==> r[i] == all[i];
    if |first| < NUM_EMOJIS {
      assert all[..|first|] == first;
      DedupOntoFrom(first, Fallback(cats));
      assert forall i :: |first| <= i < |all| ==> all[i] in Fallback(cats);
    }
  }

  /** The chosen categories come best score first (`sortedmatches` order). */
  predicate CatsDescending(cats: seq<Category>)
  {
    forall i, j :: 0 <= i < j < |cats| ==> cats[j].score <= cats[i].score
  }

  lemma {:induction false} SmallDescending(cats: seq<Category>)
    requires CatsDescending(cats)
    ensures CatsDescending(Small(cats))
  {
    if |cats| > 0 {
      var pre := cats[..|cats| - 1];
      var c := cats[|cats| - 1];
      SmallDescending(pre);
      SmallLargeMembers(pre);
      forall d | d in Small(pre)
        ensures c.score <= d.score
      {
        var i :| 0 <= i < |pre| && pre[i] == d;
        assert cats[i] == d;
      }
    }
  }

  lemma {:induction false} ExpandDescending(cats: seq<Category>)
    requires CatsDescending(cats)
    ensures Descending(Expand(cats))
  {
    if |cats| > 0 {
      var pre := cats[..|cats| - 1];
      var c := cats[|cats| - 1];
      ExpandDescending(pre);
      ExpandFrom(pre);
      var e := Expand(pre);
      forall i | 0 <= i < |e|
        ensures c.score <= e[i].score
      {
        var d :| d in pre && e[i].name in d.names && e[i].score == d.score;
        var p :| 0 <= p < |pre| && pre[p] == d;
        assert cats[p] == d;
      }
    }
  }

  /** `sortedmatches` lists the best scores first, so its categories come in descending score order. */
  lemma MatchesDescending(wcl: seq<(string, seq<string>)>, scores: seq<real>, m: seq<nat>, k: nat)
    requires |scores| == |wcl| && Top.IsTopSelection(scores, m, k)
    ensures CatsDescending(Categories(wcl, scores, m))
  {
  }

  /** With categories in descending score order, the first pass emits in descending score order. */
  lemma FirstPassDescending(cats: seq<Category>)
    requires CatsDescending(cats)
    ensures Descending(FirstPass(cats))
  {
    SmallDescending(cats);
    ExpandDescending(Small(cats));
    DedupKeepsDescending(Expand(Small(cats)));
  }

  /** On the top matches, the selected names that the first pass supplied come best score first. */
  lemma SelectedFirstPassDescending(wcl: seq<(string, seq<string>)>, scores: seq<real>, m: seq<nat>, k: nat, num: int)
    requires |scores| == |wcl| && Top.IsTopSelection(scores, m, k)
    ensures var cats := Categories(wcl, scores, m);
            var names := Select(cats, num);
            forall i, j :: 0 <= i < j < |names| && j < |FirstPass(cats)| ==> names[j].score <= names[i].score
  {
    var cats := Categories(wcl, scores, m);
    MatchesDescending(wcl, scores, m, k);
    FirstPassDescending(cats);
    SelectOrder(cats, num);
  }

  /**
   * The guard compares with NUM_EMOJIS, not `num`: when the first pass finds at
   * least NUM_EMOJIS but fewer than `num` names, the large categories are never
   * consulted and the result is shorter than `num`.
   */
  lemma ShortOfNum(cats: seq<Category>, num: int)
    requires NUM_EMOJIS <= |FirstPass(cats)| < num
    ensures Select(cats, num) == FirstPass(cats)
    ensures |Select(cats, num)| < num
  {
  }

  /**
   * An instance: two small categories with five emojis each and a large one
   * with eight.
   */
  function ExampleCats(): seq<Category>
  {
    [Category(["a", "b", "c", "d", "e"], 0.9),
     Category(["f", "g", "h", "i", "j"], 0.8),
     Category(["k", "l", "m", "n", "o", "p", "q", "r"], 0.7)]
  }

  lemma ExampleSmall()
    ensures Small(ExampleCats()) == ExampleCats()[..2]
  {
    var cats := ExampleCats();
    assert cats[..2][..1] == cats[..1] && cats[..1][..0] == [];
    assert Small(cats[..1]) == [cats[0]];
    assert Small(cats[..2]) == [cats[0], cats[1]];
  }

  lemma ExampleExpand()
    ensures Expand(ExampleCats()[..2]) == Spread(ExampleCats()[0]) + Spread(ExampleCats()[1])
  {
    var cats := ExampleCats()[..2];
    assert cats[..1] == [cats[0]] && cats[..1][..0] == [];
    assert Expand(cats[..1]) == Spread(cats[0]);
  }

  lemma ExampleSpread()
    ensures Spread(ExampleCats()[0]) ==
            [Scored("a", 0.9), Scored("b", 0.9), Scored("c", 0.9), Scored("d", 0.9), Scored("e", 0.9)]
    ensures Spread(ExampleCats()[1]) ==
            [Scored("f", 0.8), Scored("g", 0.8), Scored("h", 0.8), Scored("i", 0.8), Scored("j", 0.8)]
  {
  }

  /** The example's ten small-category names are the letters `a` to `j`, one each. */
  lemma ExampleDistinct()
    ensures DistinctNames(Spread(ExampleCats()[0]) + Spread(ExampleCats()[1]))
    ensures "k" !in Names(Spread(ExampleCats()[0]) + Spread(ExampleCats()[1]))
  {
    ExampleSpread();
    var xs := Spread(ExampleCats()[0]) + Spread(ExampleCats()[1]);
    assert |xs| == 10;
    assert forall i :: 0 <= i < |xs| ==> xs[i].name == [('a' as int + i) as char];
    forall i, j | 0 <= i < j < |xs|
      ensures xs[i].name != xs[j].name
    {
      assert xs[i].name[0] != xs[j].name[0];
    }
    forall x | x in xs
      ensures x.name != "k"
    {
      assert x.name[0] < 'k';
    }
  }

  /**
   * On the instance, asking for 12 gives the ten small-category emojis and
   * none of the large category's, although 12 names are available.
   */
  lemma ShortOfNumExample()
    ensures |Select(ExampleCats(), 12)| == 10 && "k" !in Names(Select(ExampleCats(), 12))
  {
    var cats := ExampleCats();
    ExampleSmall();
    ExampleExpand();
    ExampleDistinct();
    var xs := Expand(Small(cats));
    DedupDistinctIsIdentity(xs);
    assert FirstPass(cats) == xs;
    ShortOfNum(cats, 12);
  }
}
