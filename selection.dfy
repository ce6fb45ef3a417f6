/** The pure computations behind selecting pages: dropping an id from the order,
    keeping first occurrences, and turning the typed index list into page ids. */
module Selection {
  import opened JsString
  import opened Splice

  predicate NoDup<T(==)>(s: seq<T>) {
    forall i, j :: 0 <= i < j < |s| ==> s[i] != s[j]
  }

  function Elems<T>(s: seq<T>): set<T> {
    set x | x in s
  }

  lemma SameElems<T(!new)>(a: seq<T>, b: seq<T>)
    requires forall x :: x in a <==> x in b
    ensures Elems(a) == Elems(b)
  {
  }

  /** The page ids of a document with `pageCount` pages: `String(1)`, ..., `String(pageCount)`,
      as the load assigns them. */
  function PageIds(pageCount: nat): (ids: seq<string>)
    ensures |ids| == pageCount
    ensures forall k :: 0 <= k < pageCount ==> ids[k] == NatToString(k + 1)
  {
    if pageCount == 0 then [] else PageIds(pageCount - 1) + [NatToString(pageCount)]
  }

  /** The decimal string of a number in [1, pageCount] is a page id. */
  lemma {:induction false} PageIdOf(n: nat, pageCount: nat)
    requires 1 <= n <= pageCount
    ensures NatToString(n) in PageIds(pageCount)
  {
    assert PageIds(pageCount)[n - 1] == NatToString(n);
  }

  /** `parseInt` of a page id gives back the number it was made from. */
  lemma {:induction false} PageNumberOfId(id: string, pageCount: nat)
    requires id in PageIds(pageCount)
    ensures ParseInt(id).Num? && 1 <= ParseInt(id).value <= pageCount
    ensures NatToString(ParseInt(id).value) == id
    ensures PageIds(pageCount)[ParseInt(id).value - 1] == id
  {
    var k :| 0 <= k < pageCount && PageIds(pageCount)[k] == id;
    ParseIntOfString(k + 1);
  }

  // ------------------------------------------------------------ toggling

  /** `s.filter((y) => y !== x)`. */
  function Without<T(==,!new)>(s: seq<T>, x: T): (r: seq<T>)
    ensures forall y :: y in r <==> y in s && y != x
    ensures NoDup(s) ==> NoDup(r)
  {
    if s == [] then []
    else
      var w := Without(s[1..], x);
      assert NoDup(s) ==> NoDup(s[1..]) && s[0] !in w;
      if s[0] == x then w else [s[0]] + w
  }

  /** In a sequence without duplicates, filtering `x` out is taking out its one
      occurrence: the other elements keep their relative order. */
  lemma {:induction false} WithoutIsRemoveAt<T(!new)>(s: seq<T>, x: T)
    requires NoDup(s) && x in s
    ensures Without(s, x) == RemoveAt(s, IndexOf(s, x))
  {
    if s[0] == x {
      WithoutAbsent(s[1..], x);
    } else {
      WithoutIsRemoveAt(s[1..], x);
      var i := IndexOf(s[1..], x);
      assert IndexOf(s, x) == i + 1;
      assert RemoveAt(s, i + 1) == [s[0]] + RemoveAt(s[1..], i);
    }
  }

  /** Filtering out an element that is not there changes nothing. */
  lemma {:induction false} WithoutAbsent<T(!new)>(s: seq<T>, x: T)
    requires x !in s
    ensures Without(s, x) == s
  {
    if s != [] {
      WithoutAbsent(s[1..], x);
      assert s == [s[0]] + s[1..];
    }
  }

  /** Toggling an unselected id on and then off again restores the order exactly. */
  lemma {:induction false} ToggleOnOff<T(!new)>(s: seq<T>, x: T)
    requires x !in s
    ensures Without(s + [x], x) == s
  {
    if s == [] {
      assert Without([x], x) == Without([], x);
    } else {
      assert (s + [x])[1..] == s[1..] + [x];
      ToggleOnOff(s[1..], x);
      assert s == [s[0]] + s[1..];
    }
  }

  /** Toggling a selected id off and then on again keeps the same ids and no
      duplicates, but the id comes back at the tail, behind all the others, which
      keep their relative order. */
  lemma {:induction false} ToggleOffOn<T(!new)>(s: seq<T>, x: T)
    requires NoDup(s) && x in s
    ensures var r := Without(s, x) + [x];
            NoDup(r) && Elems(r) == Elems(s) && |r| == |s|
            && r[|r| - 1] == x && r[..|r| - 1] == RemoveAt(s, IndexOf(s, x))
  {
    var w := Without(s, x);
    WithoutIsRemoveAt(s, x);
    var r := w + [x];
    assert r[..|r| - 1] == w;
    assert forall i :: 0 <= i < |w| ==> w[i] != x;
  }

  /** Dropping an id from an order without duplicates keeps the order's elements
      equal to the selection with that id taken out. */
  lemma WithoutKeepsInvariant<T(!new)>(s: seq<T>, chosen: set<T>, x: T)
    requires NoDup(s) && Elems(s) == chosen
    ensures NoDup(Without(s, x)) && Elems(Without(s, x)) == chosen - {x}
  {
  }

  /** Appending an unselected id keeps the order's elements equal to the selection
      with that id added. */
  lemma AppendKeepsInvariant<T(!new)>(s: seq<T>, chosen: set<T>, x: T)
    requires NoDup(s) && Elems(s) == chosen && x !in chosen
    ensures NoDup(s + [x]) && Elems(s + [x]) == chosen + {x}
  {
  }

  /** A move keeps the order's elements equal to the selection, without duplicates. */
  lemma {:induction false} MoveKeepsInvariant<T(!new)>(s: seq<T>, chosen: set<T>, from: nat, to: nat)
    requires NoDup(s) && Elems(s) == chosen && from < |s| && to < |s|
    ensures NoDup(Move(s, from, to)) && Elems(Move(s, from, to)) == chosen
  {
    var r := Move(s, from, to);
    var rest := RemoveAt(s, from);
    assert NoDup(rest);
    assert s[from] !in rest;
    assert r == rest[..to] + [s[from]] + rest[to..];
    assert rest == rest[..to] + rest[to..];
    assert s == s[..from] + [s[from]] + s[from + 1..];
    assert forall y :: y in r <==> y in rest || y == s[from];
    assert forall y :: y in s <==> y in rest || y == s[from];
    assert Elems(r) == Elems(s);
  }

  // ------------------------------------------------------- first occurrences

  /** `[...new Set(s)]`: each element once. */
  function Dedup<T(==,!new)>(s: seq<T>): (r: seq<T>)
    ensures NoDup(r)
    ensures forall x :: x in r <==> x in s
  {
    if s == [] then []
    else
      var d := Dedup(s[..|s| - 1]);
      var x := s[|s| - 1];
      assert s == s[..|s| - 1] + [x];
      if x in d then d else d + [x]
  }

  /** `Dedup` keeps each element at the place of its first occurrence: the result
      lists the elements in the order in which they first appear in `s`. */
  lemma {:induction false} DedupOrder<T(!new)>(s: seq<T>)
    ensures forall i, j :: 0 <= i < j < |Dedup(s)| ==> IndexOf(s, Dedup(s)[i]) < IndexOf(s, Dedup(s)[j])
  {
    if s != [] {
      var p := s[..|s| - 1];
      var x := s[|s| - 1];
      DedupOrder(p);
      assert s == p + [x];
      var d, r := Dedup(p), Dedup(s);
      assert r == if x in d then d else d + [x];
      forall i, j | 0 <= i < j < |r|
        ensures IndexOf(s, r[i]) < IndexOf(s, r[j])
      {
        assert r[i] == d[i] && d[i] in p;
        IndexOfPrefix(p, [x], d[i]);
        if j < |d| {
          assert r[j] == d[j] && d[j] in p;
          IndexOfPrefix(p, [x], d[j]);
          assert IndexOf(p, d[i]) < IndexOf(p, d[j]);
        } else {
          assert r[j] == x && x !in p;
          IndexOfLast(p, x);
          assert IndexOf(p, d[i]) < |p|;
        }
      }
    }
  }

  lemma IndexOfLast<T>(p: seq<T>, x: T)
    requires x !in p
    ensures IndexOf(p + [x], x) == |p|
  {
  }

  lemma {:induction false} IndexOfPrefix<T>(p: seq<T>, q: seq<T>, y: T)
    requires y in p
    ensures IndexOf(p + q, y) == IndexOf(p, y)
  {
    var j := IndexOf(p, y);
    assert (p + q)[j] == y && (p + q)[..j] == p[..j];
  }

  /** Adding an element to a `Set` that already holds it changes nothing; adding a
      new one puts it last. */
  lemma {:induction false} DedupSnoc<T(!new)>(p: seq<T>, x: T)
    ensures x in p ==> Dedup(p + [x]) == Dedup(p)
    ensures x !in p ==> Dedup(p + [x]) == Dedup(p) + [x]
  {
    assert (p + [x])[..|p + [x]| - 1] == p;
  }

  /** A repeat right after the first occurrence is dropped. */
  lemma DedupRepeat<T(!new)>(a: T, b: T)
    requires a != b
    ensures Dedup([a, a, b]) == [a, b]
  {
    DedupSnoc([a], a);
    assert [a] + [a] == [a, a];
    DedupSnoc([a, a], b);
    assert [a, a] + [b] == [a, a, b];
  }

  /** A sequence that already has no duplicates is its own deduplication. */
  lemma {:induction false} DedupOfDistinct<T(!new)>(s: seq<T>)
    requires NoDup(s)
    ensures Dedup(s) == s
  {
    if s != [] {
      var p := s[..|s| - 1];
      assert NoDup(p);
      DedupOfDistinct(p);
      assert s[|s| - 1] !in Dedup(p);
      assert s == p + [s[|s| - 1]];
    }
  }

  // ------------------------------------------------------ select by index

  /** `text.split(",").map((v) => parseInt(v.trim()))`: one number per comma-separated
      token, so even the empty text gives one (`NaN`). */
  function ParseTokens(text: string): (ns: seq<JsNumber>)
    ensures |ns| >= 1
  {
    ParseEach(Split(text, ','))
  }

  /** Tokens joined with commas are parsed back one by one, each trimmed and read by
      `parseInt` on its own. */
  lemma {:induction false} ParseTokensOfJoin(tokens: seq<string>)
    requires |tokens| >= 1
    requires forall k :: 0 <= k < |tokens| ==> ',' !in tokens[k]
    ensures var ns := ParseTokens(Join(tokens, ','));
            |ns| == |tokens| && forall k :: 0 <= k < |tokens| ==> ns[k] == ParseInt(Trim(tokens[k]))
  {
    SplitJoin(tokens, ',');
  }

  /** `tokens.map((v) => parseInt(v.trim()))`. */
  function ParseEach(tokens: seq<string>): (ns: seq<JsNumber>)
    ensures |ns| == |tokens|
    ensures forall k :: 0 <= k < |tokens| ==> ns[k] == ParseInt(Trim(tokens[k]))
  {
    if tokens == [] then [] else [ParseInt(Trim(tokens[0]))] + ParseEach(tokens[1..])
  }

  /** `ns.filter((n) => !isNaN(n) && n >= 1 && n <= pageCount)`. */
  function InRange(ns: seq<JsNumber>, pageCount: nat): (r: seq<nat>)
    ensures |r| <= |ns|
    ensures forall k :: 0 <= k < |r| ==> 1 <= r[k] <= pageCount
    ensures forall n: nat :: n in r <==> Num(n) in ns && 1 <= n <= pageCount
  {
    if ns == [] then []
    else
      var rest := InRange(ns[1..], pageCount);
      assert forall m :: m in ns <==> m == ns[0] || m in ns[1..];
      if ns[0].Num? && 1 <= ns[0].value <= pageCount then [ns[0].value] + rest else rest
  }

  /** `ns.map((n) => String(n))`. */
  function ToIds(ns: seq<nat>): (ids: seq<string>)
    ensures |ids| == |ns|
    ensures forall k :: 0 <= k < |ns| ==> ids[k] == NatToString(ns[k])
  {
    if ns == [] then [] else [NatToString(ns[0])] + ToIds(ns[1..])
  }

  /** The ids that `selectPagesByIndex` puts into the order: no id twice, and every
      one a page id. */
  function IndexSelection(text: string, pageCount: nat): (r: seq<string>)
    ensures NoDup(r)
    ensures forall k :: 0 <= k < |r| ==> r[k] in PageIds(pageCount)
  {
    var indexes := InRange(ParseTokens(text), pageCount);
    var r := Dedup(ToIds(indexes));
    SelectionIds(indexes, pageCount, r);
    r
  }

  /** A page is selected exactly when some token of the typed list parses to its number. */
  lemma {:induction false} IndexSelectionMembers(text: string, pageCount: nat)
    ensures var r := IndexSelection(text, pageCount);
            forall n: nat :: 1 <= n <= pageCount ==>
              (NatToString(n) in r <==> Num(n) in ParseTokens(text))
  {
    var indexes := InRange(ParseTokens(text), pageCount);
    SelectionIds(indexes, pageCount, IndexSelection(text, pageCount));
  }

  /** Every selected id is `String(n)` for a token that parsed to a page number `n`. */
  lemma {:induction false} IndexSelectionSources(text: string, pageCount: nat)
    ensures var r := IndexSelection(text, pageCount);
            forall k :: 0 <= k < |r| ==>
              && ParseInt(r[k]).Num? && 1 <= ParseInt(r[k]).value <= pageCount
              && NatToString(ParseInt(r[k]).value) == r[k]
              && ParseInt(r[k]) in ParseTokens(text)
  {
    var r := IndexSelection(text, pageCount);
    IndexSelectionMembers(text, pageCount);
    forall k | 0 <= k < |r|
      ensures ParseInt(r[k]).Num? && 1 <= ParseInt(r[k]).value <= pageCount
      ensures NatToString(ParseInt(r[k]).value) == r[k]
    {
      PageNumberOfId(r[k], pageCount);
    }
  }

  /** Nothing is selected exactly when no token names a page of the document. */
  lemma {:induction false} NoPageNamed(text: string, pageCount: nat)
    ensures IndexSelection(text, pageCount) == [] <==>
            forall n: nat :: 1 <= n <= pageCount ==> Num(n) !in ParseTokens(text)
  {
    var r := IndexSelection(text, pageCount);
    assert r == [] || r[0] in Elems(r);
    IndexSelectionSources(text, pageCount);
    IndexSelectionMembers(text, pageCount);
    if forall n: nat :: 1 <= n <= pageCount ==> Num(n) !in ParseTokens(text) {
      assert Elems(r) == {};
    }
  }

  /** The selected ids come in the order of the first token that names each of them. */
  lemma {:induction false} IndexSelectionOrder(text: string, pageCount: nat)
    ensures var r := IndexSelection(text, pageCount);
            forall i, j :: 0 <= i < j < |r| ==>
              IndexOf(ParseTokens(text), ParseInt(r[i])) < IndexOf(ParseTokens(text), ParseInt(r[j]))
  {
    SelectionOrder(ParseTokens(text), pageCount, IndexSelection(text, pageCount));
  }

  /** The steps of `selectPagesByIndex`: the filtered list is empty exactly when the
      selection is, and the set built from the ids holds what the order holds. */
  lemma {:induction false} SelectionOfIndexes(text: string, pageCount: nat)
    ensures var indexes := InRange(ParseTokens(text), pageCount);
            var r := IndexSelection(text, pageCount);
            && Dedup(ToIds(indexes)) == r
            && (indexes == [] <==> r == [])
            && Elems(ToIds(indexes)) == Elems(r)
            && forall id :: id in Elems(r) ==> id in PageIds(pageCount)
  {
    IdsOfIndexes(InRange(ParseTokens(text), pageCount), pageCount);
  }

  lemma {:induction false} IdsOfIndexes(indexes: seq<nat>, pageCount: nat)
    requires forall k :: 0 <= k < |indexes| ==> 1 <= indexes[k] <= pageCount
    ensures var r := Dedup(ToIds(indexes));
            && (indexes == [] <==> r == [])
            && Elems(ToIds(indexes)) == Elems(r)
            && forall id :: id in Elems(r) ==> id in PageIds(pageCount)
  {
    var ids := ToIds(indexes);
    var r := Dedup(ids);
    SelectionIds(indexes, pageCount, r);
    if indexes != [] {
      assert ids[0] in r;
    }
    SameElems(ids, r);
  }

  /** Every id that `ToIds` produces is the decimal string of one of the numbers. */
  lemma {:induction false} ToIdsMember(ns: seq<nat>, id: string)
    requires id in ToIds(ns)
    ensures ParseInt(id).Num? && ParseInt(id).value in ns && NatToString(ParseInt(id).value) == id
  {
    var m :| 0 <= m < |ns| && ToIds(ns)[m] == id;
    ParseIntOfString(ns[m]);
  }

  lemma {:induction false} SelectionIds(indexes: seq<nat>, pageCount: nat, r: seq<string>)
    requires forall k :: 0 <= k < |indexes| ==> 1 <= indexes[k] <= pageCount
    requires r == Dedup(ToIds(indexes))
    ensures forall k :: 0 <= k < |r| ==> r[k] in PageIds(pageCount)
    ensures forall n: nat :: NatToString(n) in r <==> n in indexes
  {
    forall k | 0 <= k < |r|
      ensures r[k] in PageIds(pageCount)
    {
      ToIdsMember(indexes, r[k]);
      PageIdOf(ParseInt(r[k]).value, pageCount);
    }
    forall n: nat
      ensures NatToString(n) in r <==> n in indexes
    {
      if NatToString(n) in r {
        ToIdsMember(indexes, NatToString(n));
        ParseIntOfString(n);
      }
      if n in indexes {
        var m :| 0 <= m < |indexes| && indexes[m] == n;
        assert ToIds(indexes)[m] == NatToString(n);
      }
    }
  }

  lemma {:induction false} SelectionOrder(parsed: seq<JsNumber>, pageCount: nat, r: seq<string>)
    requires r == Dedup(ToIds(InRange(parsed, pageCount)))
    ensures forall i, j :: 0 <= i < j < |r| ==>
              IndexOf(parsed, ParseInt(r[i])) < IndexOf(parsed, ParseInt(r[j]))
  {
    var indexes := InRange(parsed, pageCount);
    var ids := ToIds(indexes);
    DedupOrder(ids);
    forall i, j | 0 <= i < j < |r|
      ensures IndexOf(parsed, ParseInt(r[i])) < IndexOf(parsed, ParseInt(r[j]))
    {
      ToIdsMember(indexes, r[i]);
      ToIdsMember(indexes, r[j]);
      var a: nat, b: nat := ParseInt(r[i]).value, ParseInt(r[j]).value;
      IndexOfToIds(indexes, a);
      IndexOfToIds(indexes, b);
      IndexOfInRange(parsed, pageCount, a, b);
    }
  }

  /** Mapping numbers to their decimal strings keeps every first-occurrence index. */
  lemma {:induction false} IndexOfToIds(ns: seq<nat>, n: nat)
    requires n in ns
    ensures IndexOf(ToIds(ns), NatToString(n)) == IndexOf(ns, n)
  {
    var ids := ToIds(ns);
    if ns[0] != n {
      NatToStringInjective(ns[0], n);
      assert ToIds(ns[1..]) == ids[1..];
      IndexOfToIds(ns[1..], n);
    }
  }

  /** The range filter keeps the order in which two kept numbers first appear. */
  lemma {:induction false} IndexOfInRange(ns: seq<JsNumber>, pageCount: nat, a: nat, b: nat)
    requires a in InRange(ns, pageCount) && b in InRange(ns, pageCount)
    ensures IndexOf(InRange(ns, pageCount), a) < IndexOf(InRange(ns, pageCount), b)
            <==> IndexOf(ns, Num(a)) < IndexOf(ns, Num(b))
  {
    var head := ns[0];
    var rest := InRange(ns[1..], pageCount);
    var kept := head.Num? && 1 <= head.value <= pageCount;
    if head == Num(a) || head == Num(b) {
    } else {
      assert a in rest && b in rest;
      IndexOfInRange(ns[1..], pageCount, a, b);
      if kept {
        assert InRange(ns, pageCount) == [head.value] + rest;
      }
    }
  }

  /** Typing back a list of page numbers in [1, pageCount], comma-separated, selects
      exactly those pages, each once, in the order typed. */
  lemma {:induction false} SelectTypedIds(ns: seq<nat>, pageCount: nat)
    requires |ns| >= 1
    requires forall k :: 0 <= k < |ns| ==> 1 <= ns[k] <= pageCount
    ensures IndexSelection(Join(ToIds(ns), ','), pageCount) == Dedup(ToIds(ns))
  {
    ParseTokensOfIds(ns);
    InRangeAll(ns, pageCount);
  }

  lemma {:induction false} ParseTokensOfIds(ns: seq<nat>)
    requires |ns| >= 1
    ensures ParseTokens(Join(ToIds(ns), ',')) == Nums(ns)
  {
    var ids := ToIds(ns);
    forall k | 0 <= k < |ids|
      ensures ',' !in ids[k] && ParseInt(Trim(ids[k])) == Num(ns[k])
    {
      IdToken(ns[k]);
    }
    SplitJoin(ids, ',');
  }

  /** `String(n)` holds no comma, and trimming and parsing it gives back `n`. */
  lemma {:induction false} IdToken(n: nat)
    ensures ',' !in NatToString(n)
    ensures ParseInt(Trim(NatToString(n))) == Num(n)
  {
    var id := NatToString(n);
    NatToStringDigits(n);
    assert forall i :: 0 <= i < |id| ==> IsDigit(id[i]);
    TrimOfDigits(id);
    ParseIntOfString(n);
  }

  /** The parse results of a list of numbers, token by token. */
  function Nums(ns: seq<nat>): (r: seq<JsNumber>)
    ensures |r| == |ns|
    ensures forall k :: 0 <= k < |ns| ==> r[k] == Num(ns[k])
  {
    if ns == [] then [] else [Num(ns[0])] + Nums(ns[1..])
  }

  lemma {:induction false} InRangeAll(ns: seq<nat>, pageCount: nat)
    requires forall k :: 0 <= k < |ns| ==> 1 <= ns[k] <= pageCount
    ensures InRange(Nums(ns), pageCount) == ns
  {
    if ns != [] {
      InRangeAll(ns[1..], pageCount);
      assert Nums(ns)[1..] == Nums(ns[1..]);
      assert ns == [ns[0]] + ns[1..];
    }
  }
}
