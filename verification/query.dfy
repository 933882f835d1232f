/** ProductManager's derived views: the search filter (`filteredProducts`),
    the three-state name sort (`sortedProducts`) and the sort toggle. */
module Query {

  import opened Types
  import opened Seqs
  import opened Text

  /** A variant matches the lower-cased query through its size, its color
      (both lower-cased) or the decimal text of its price. A query holding a
      letter can only match through the size or the color. */
  predicate VariantMatches(v: Variant, query: string): (r: bool)
    ensures query == "" ==> r
    ensures (exists k :: 0 <= k < |query| && 'a' <= query[k] <= 'z') ==>
      (r <==> Includes(Lower(v.size), query) || Includes(Lower(v.color), query))
  {
    LetterQueryMissesPrice(v.price, query);
    Includes(Lower(v.size), query) || Includes(Lower(v.color), query) || Includes(IntToString(v.price), query)
  }

  /** A query holding a letter never occurs in a price's text. */
  lemma LetterQueryMissesPrice(price: int, query: string)
    ensures (exists k :: 0 <= k < |query| && 'a' <= query[k] <= 'z') ==> !Includes(IntToString(price), query)
  {
    if exists k :: 0 <= k < |query| && 'a' <= query[k] <= 'z' {
      var k :| 0 <= k < |query| && 'a' <= query[k] <= 'z';
      IntToStringHasNoLetters(price, query, k);
    }
  }

  /** The filter's test for one product: the lower-cased search occurs in the
      lower-cased name or some variant matches it. The empty search matches
      every product, and a product without variants matches by name only. */
  predicate Matches(search: string, p: Product): (r: bool)
    ensures search == "" ==> r
    ensures Includes(Lower(p.name), Lower(search)) ==> r
    ensures forall v :: v in p.variants && VariantMatches(v, Lower(search)) ==> r
    ensures p.variants == [] ==> (r <==> Includes(Lower(p.name), Lower(search)))
  {
    var query := Lower(search);
    Includes(Lower(p.name), query) || exists v :: v in p.variants && VariantMatches(v, query)
  }

  /** `filteredProducts`: the products that match the search, in catalog order. */
  function Filtered(ps: seq<Product>, search: string): (r: seq<Product>)
    ensures IsSubsequence(r, ps)
    ensures forall p :: p in r <==> p in ps && Matches(search, p)
  {
    FilterIsSubsequence(ps, p => Matches(search, p));
    FilterMembers(ps, p => Matches(search, p));
    Filter(ps, p => Matches(search, p))
  }

  /** An empty search keeps every product, in order. */
  lemma EmptySearchKeepsAll(ps: seq<Product>)
    ensures Filtered(ps, "") == ps
  {
    assert forall i :: 0 <= i < |ps| ==> Matches("", ps[i]);
    FilterKeepsAll(ps, p => Matches("", p));
  }

  /** Filtering the catalog with a product appended is filtering the old
      catalog, then appending the product if it matches. */
  lemma FilteredAppend(ps: seq<Product>, p: Product, search: string)
    ensures Filtered(ps + [p], search) == Filtered(ps, search) + (if Matches(search, p) then [p] else [])
  {
    FilterAppend(ps, [p], q => Matches(search, q));
  }

  /** The search matches by name regardless of letter case: a product whose
      name, lower-cased, contains the lower-cased search is kept. */
  lemma NameMatchKept(ps: seq<Product>, search: string, i: nat)
    requires i < |ps| && Includes(Lower(ps[i].name), Lower(search))
    ensures ps[i] in Filtered(ps, search)
  {
  }

  /** The catalog of one shoe with a medium red variant priced 20. */
  const ShoeCatalog: seq<Product> := [Product("p1", "Shoe", [Variant("v1", "M", "Red", 20)])]

  /** Searching "red" finds the shoe through its variant's color. */
  lemma SearchRedFindsShoe()
    ensures Filtered(ShoeCatalog, "red") == ShoeCatalog
  {
    var shoe := ShoeCatalog[0];
    var v := shoe.variants[0];
    assert Lower("red") == "red";
    assert Lower(v.color) == "red";
    IncludesSelf("red");
    assert VariantMatches(v, "red");
    assert Matches("red", shoe);
    FilterKeepsAll(ShoeCatalog, p => Matches("red", p));
  }

  /** Searching "blue" finds nothing in the shoe catalog. */
  lemma SearchBlueFindsNothing()
    ensures Filtered(ShoeCatalog, "blue") == []
  {
    var shoe := ShoeCatalog[0];
    var v := shoe.variants[0];
    assert Lower("blue") == "blue";
    assert Lower(shoe.name) == "shoe";
    assert Lower(v.size) == "m";
    assert Lower(v.color) == "red";
    assert "shoe"[..4] == "shoe" && "shoe"[0] != "blue"[0];
    assert !StartsWith("shoe", "blue");
    assert "shoe"[1..] == "hoe";
    IntToStringHasNoLetters(v.price, "blue", 0);
    assert !VariantMatches(v, "blue");
    assert !Matches("blue", shoe);
    assert ShoeCatalog == [shoe];
  }

  /** The three states of the sort toggle. */
  datatype SortOrder = Unsorted | Ascending | Descending

  /** `toggleSort`: null -> asc -> desc -> null. */
  function NextOrder(o: SortOrder): (r: SortOrder)
    ensures r != o
  {
    match o
    case Unsorted => Ascending
    case Ascending => Descending
    case Descending => Unsorted
  }

  /** Three toggles return the sort order to where it started, and fewer do not. */
  lemma ToggleCycle(o: SortOrder)
    ensures NextOrder(NextOrder(NextOrder(o))) == o
    ensures NextOrder(NextOrder(o)) != o
  {
  }

  /** `le(a, b)` stands for `a.localeCompare(b) <= 0`. The model asks of it
      only what a comparison must give: every two names compare, and the
      comparison is transitive. */
  ghost predicate TotalPreorder(le: (string, string) -> bool)
  {
    && (forall a, b :: le(a, b) || le(b, a))
    && (forall a, b, c :: le(a, b) && le(b, c) ==> le(a, c))
  }

  /** The sort comparator says `a` may stay before `b` (it returns zero or less).
      Without a sort order every pair may stay, and two products with the same
      name may stay in either order whenever `le` accepts that name against
      itself; totality and transitivity are `InOrderPreorder`. */
  predicate InOrder(order: SortOrder, le: (string, string) -> bool, a: Product, b: Product): (r: bool)
    ensures order.Unsorted? ==> r
    ensures a.name == b.name && le(a.name, a.name) ==> r
  {
    match order
    case Unsorted => true
    case Ascending => le(a.name, b.name)
    case Descending => le(b.name, a.name)
  }

  /** Every two elements, taken in sequence order, are in comparator order. */
  ghost predicate SortedBy(order: SortOrder, le: (string, string) -> bool, s: seq<Product>)
  {
    forall i, j :: 0 <= i < j < |s| ==> InOrder(order, le, s[i], s[j])
  }

  /** Places `x` before the first element of `t` it may precede: after every
      element that must come before it, and before its equals. */
  function Insert(order: SortOrder, le: (string, string) -> bool, x: Product, t: seq<Product>): (r: seq<Product>)
    ensures multiset(r) == multiset(t) + multiset{x}
  {
    if t == [] || InOrder(order, le, x, t[0]) then [x] + t
    else
      assert t == [t[0]] + t[1..];
      [t[0]] + Insert(order, le, x, t[1..])
  }

  /** `sortedProducts`: a stable sort of `s` by the comparator of `order`
      (JavaScript's `Array.prototype.sort` is stable). Each element is
      inserted in front of the later elements it may precede, so equals keep
      their original order. */
  function Sorted(order: SortOrder, le: (string, string) -> bool, s: seq<Product>): (r: seq<Product>)
    ensures multiset(r) == multiset(s)
    ensures |r| == |s|
  {
    if s == [] then []
    else
      assert s == [s[0]] + s[1..];
      Insert(order, le, s[0], Sorted(order, le, s[1..]))
  }

  /** Under a total preorder, each sort order's comparator is total and transitive. */
  lemma InOrderPreorder(order: SortOrder, le: (string, string) -> bool)
    requires TotalPreorder(le)
    ensures forall a, b :: InOrder(order, le, a, b) || InOrder(order, le, b, a)
    ensures forall a, b, c :: InOrder(order, le, a, b) && InOrder(order, le, b, c) ==> InOrder(order, le, a, c)
  {
  }

  /** Inserting into a sorted sequence keeps it sorted. */
  lemma {:induction false} InsertSorted(order: SortOrder, le: (string, string) -> bool, x: Product, t: seq<Product>)
    requires TotalPreorder(le) && SortedBy(order, le, t)
    ensures SortedBy(order, le, Insert(order, le, x, t))
  {
    InOrderPreorder(order, le);
    if t != [] && !InOrder(order, le, x, t[0]) {
      var rest := Insert(order, le, x, t[1..]);
      InsertSorted(order, le, x, t[1..]);
      assert multiset(rest) == multiset(t[1..]) + multiset{x};
      forall j | 0 <= j < |rest| ensures InOrder(order, le, t[0], rest[j]) {
        assert rest[j] in multiset(rest);
        if rest[j] != x {
          assert rest[j] in multiset(t[1..]);
          var k :| 0 <= k < |t[1..]| && t[1..][k] == rest[j];
          assert t[k + 1] == rest[j];
        }
      }
      var r := [t[0]] + rest;
      forall i, j | 0 <= i < j < |r| ensures InOrder(order, le, r[i], r[j]) {
        if i > 0 {
          assert r[i] == rest[i - 1] && r[j] == rest[j - 1];
        }
      }
    }
  }

  /** With `asc` the result is non-decreasing by name, with `desc` non-increasing. */
  lemma {:induction false} SortedIsSorted(order: SortOrder, le: (string, string) -> bool, s: seq<Product>)
    requires TotalPreorder(le)
    ensures SortedBy(order, le, Sorted(order, le, s))
    ensures order == Ascending ==> forall i, j :: 0 <= i < j < |s| ==>
      le(Sorted(order, le, s)[i].name, Sorted(order, le, s)[j].name)
    ensures order == Descending ==> forall i, j :: 0 <= i < j < |s| ==>
      le(Sorted(order, le, s)[j].name, Sorted(order, le, s)[i].name)
  {
    if s != [] {
      SortedIsSorted(order, le, s[1..]);
      InsertSorted(order, le, s[0], Sorted(order, le, s[1..]));
    }
    var r := Sorted(order, le, s);
    forall i, j | 0 <= i < j < |s| ensures InOrder(order, le, r[i], r[j]) {
    }
  }

  /** `a` and `b` compare as equal under the comparator of `order`. */
  predicate Tied(order: SortOrder, le: (string, string) -> bool, a: Product, b: Product)
  {
    InOrder(order, le, a, b) && InOrder(order, le, b, a)
  }

  /** When `x` is tied with `k` but may not precede `y`, then neither may `k`,
      so `y` is not tied with `k`. */
  lemma TiedShareOrder(order: SortOrder, le: (string, string) -> bool, x: Product, y: Product, k: Product)
    requires TotalPreorder(le)
    requires Tied(order, le, x, k) && !InOrder(order, le, x, y)
    ensures !Tied(order, le, y, k)
  {
    InOrderPreorder(order, le);
    assert InOrder(order, le, k, y) ==> InOrder(order, le, x, y);
  }

  /** Inserting `x` adds it at the front of the products tied with `k`, or
      leaves them alone when `x` is not tied with `k`. */
  lemma {:induction false} InsertKeepsTies(order: SortOrder, le: (string, string) -> bool, x: Product, t: seq<Product>, k: Product)
    requires TotalPreorder(le)
    ensures Filter(Insert(order, le, x, t), p => Tied(order, le, p, k)) ==
      (if Tied(order, le, x, k) then [x] else []) + Filter(t, p => Tied(order, le, p, k))
  {
    var tied := p => Tied(order, le, p, k);
    if t == [] || InOrder(order, le, x, t[0]) {
      assert ([x] + t)[1..] == t;
    } else {
      InsertKeepsTies(order, le, x, t[1..], k);
      var rest := Insert(order, le, x, t[1..]);
      assert ([t[0]] + rest)[1..] == rest;
      assert t == [t[0]] + t[1..];
      var y := t[0];
      if Tied(order, le, x, k) {
        TiedShareOrder(order, le, x, y, k);
        assert !tied(y);
      }
    }
  }

  /** The sort is stable: the products tied with any `k` appear in the sorted
      view in the same order as in its input. */
  lemma {:induction false} SortedIsStable(order: SortOrder, le: (string, string) -> bool, s: seq<Product>, k: Product)
    requires TotalPreorder(le)
    ensures Filter(Sorted(order, le, s), p => Tied(order, le, p, k)) == Filter(s, p => Tied(order, le, p, k))
  {
    if s != [] {
      SortedIsStable(order, le, s[1..], k);
      InsertKeepsTies(order, le, s[0], Sorted(order, le, s[1..]), k);
    }
  }

  /** With no sort order the comparator always returns zero, so the stable sort
      leaves the filtered view exactly as it was. */
  lemma {:induction false} UnsortedKeepsOrder(le: (string, string) -> bool, s: seq<Product>)
    ensures Sorted(Unsorted, le, s) == s
  {
    if s != [] {
      UnsortedKeepsOrder(le, s[1..]);
      assert s == [s[0]] + s[1..];
    }
  }

  /** A comparison under which every two names are equivalent. */
  function AllEquivalent(a: string, b: string): bool
  {
    true
  }

  /** Ascending and descending are not reverses of each other when names tie:
      the stable sort keeps tied products in catalog order both ways. */
  lemma TiesKeepCatalogOrder(p: Product, q: Product)
    requires p != q
    ensures TotalPreorder(AllEquivalent)
    ensures Sorted(Ascending, AllEquivalent, [p, q]) == [p, q]
    ensures Sorted(Descending, AllEquivalent, [p, q]) == [p, q]
    ensures Sorted(Descending, AllEquivalent, [p, q]) != [q, p]
  {
  }

  /** The elements of `s` in the opposite order. */
  function Reversed(s: seq<Product>): (r: seq<Product>)
    ensures |r| == |s|
    ensures forall i :: 0 <= i < |s| ==> r[i] == s[|s| - 1 - i]
    ensures multiset(r) == multiset(s)
  {
    if s == [] then []
    else
      assert s == [s[0]] + s[1..];
      Reversed(s[1..]) + [s[0]]
  }

  /** In a sorted sequence the first element may precede every element. */
  lemma HeadPrecedesAll(order: SortOrder, le: (string, string) -> bool, u: seq<Product>)
    requires TotalPreorder(le) && SortedBy(order, le, u) && u != []
    ensures forall z :: z in u ==> InOrder(order, le, u[0], z)
  {
    InOrderPreorder(order, le);
  }

  /** Two sorted arrangements of the same products start with the same
      product when tied products are always the same product. */
  lemma SortedHeadsEqual(order: SortOrder, le: (string, string) -> bool, t: seq<Product>, u: seq<Product>)
    requires TotalPreorder(le) && t != [] && u != []
    requires SortedBy(order, le, t) && SortedBy(order, le, u)
    requires multiset(t) == multiset(u)
    requires forall a, b :: a in t && b in t && Tied(order, le, a, b) ==> a == b
    ensures t[0] == u[0]
  {
    assert t[0] in multiset(u) && u[0] in multiset(t);
    HeadPrecedesAll(order, le, t);
    HeadPrecedesAll(order, le, u);
    assert Tied(order, le, t[0], u[0]);
  }

  /** Equal multisets with equal first elements have equal tails. */
  lemma TailMultiset(t: seq<Product>, u: seq<Product>)
    requires t != [] && u != [] && t[0] == u[0] && multiset(t) == multiset(u)
    ensures multiset(t[1..]) == multiset(u[1..])
  {
    assert t == [t[0]] + t[1..] && u == [u[0]] + u[1..];
    assert multiset(t[1..]) == multiset(t) - multiset{t[0]};
    assert multiset(u[1..]) == multiset(u) - multiset{u[0]};
  }

  /** Two sorted arrangements of the same products are equal when tied
      products are always the same product. */
  lemma {:induction false} SortedUnique(order: SortOrder, le: (string, string) -> bool, t: seq<Product>, u: seq<Product>)
    requires TotalPreorder(le)
    requires SortedBy(order, le, t) && SortedBy(order, le, u)
    requires multiset(t) == multiset(u)
    requires forall a, b :: a in t && b in t && Tied(order, le, a, b) ==> a == b
    ensures t == u
    decreases |t|
  {
    assert |t| == |multiset(t)| == |multiset(u)| == |u|;
    if t != [] {
      SortedHeadsEqual(order, le, t, u);
      TailMultiset(t, u);
      assert forall z :: z in t[1..] ==> z in t;
      SortedUnique(order, le, t[1..], u[1..]);
      assert t == [t[0]] + t[1..] && u == [u[0]] + u[1..];
    }
  }

  /** When no two different products tie on their names, descending order is
      exactly ascending order reversed. */
  lemma AscendingReversedIsDescending(le: (string, string) -> bool, s: seq<Product>)
    requires TotalPreorder(le)
    requires forall a, b :: a in s && b in s && Tied(Ascending, le, a, b) ==> a == b
    ensures Sorted(Descending, le, s) == Reversed(Sorted(Ascending, le, s))
  {
    var asc, desc := Sorted(Ascending, le, s), Sorted(Descending, le, s);
    SortedIsSorted(Ascending, le, s);
    SortedIsSorted(Descending, le, s);
    ReversedAscendingIsDescending(le, asc);
    forall a, b | a in desc && b in desc && Tied(Descending, le, a, b) ensures a == b {
      assert a in multiset(desc) && b in multiset(desc);
      assert Tied(Ascending, le, a, b);
    }
    SortedUnique(Descending, le, desc, Reversed(asc));
  }

  /** Reversing an ascending sequence gives a descending one. */
  lemma ReversedAscendingIsDescending(le: (string, string) -> bool, a: seq<Product>)
    requires SortedBy(Ascending, le, a)
    ensures SortedBy(Descending, le, Reversed(a))
  {
    var r := Reversed(a);
    forall i, j | 0 <= i < j < |r| ensures InOrder(Descending, le, r[i], r[j]) {
      assert InOrder(Ascending, le, a[|a| - 1 - j], a[|a| - 1 - i]);
    }
  }

  /** What ProductManager lists: the filtered catalog, sorted by the current order. */
  function View(ps: seq<Product>, search: string, order: SortOrder, le: (string, string) -> bool): (r: seq<Product>)
    ensures multiset(r) == multiset(Filtered(ps, search))
    ensures forall p :: p in r <==> p in ps && Matches(search, p)
    ensures order == Unsorted ==> r == Filtered(ps, search)
  {
    var f := Filtered(ps, search);
    UnsortedKeepsOrder(le, f);
    var r := Sorted(order, le, f);
    assert forall p :: p in r <==> p in multiset(r);
    assert forall p :: p in f <==> p in multiset(f);
    r
  }
}
