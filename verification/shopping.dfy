/** The shopping list download: every ingredient row of every recipe in
    the viewer's basket, summed per (name, measurement unit), one text line
    per sum.

    The query joins IngredientRecipe rows to the basket through the recipes
    that use them, so a row shared by two basket recipes counts once for
    each of them. The join is modelled as a duplicate-free sequence of
    (recipe, row) pairs, and the grouping by a reference sum over it. */
module ShoppingList {
  import opened Results
  import opened Seqs
  import opened Models
  import opened Permissions

  /** One value row of the query: ingredient name, unit and an amount. */
  datatype Item = Item(name: string, unit: string, amount: int)

  type Key = (string, string)

  function KeyOf(it: Item): Key {
    (it.name, it.unit)
  }

  /** What the query needs of the store: the id counters run ahead of the
      stored ids and every row names a stored ingredient. */
  ghost predicate Readable(s: Store) {
    && PoolValid(s.pool, s.ingredients)
    && (forall id | id in s.recipes :: id < s.nextRecipe)
  }

  lemma ValidIsReadable(s: Store)
    requires Valid(s)
    ensures Readable(s)
  {
  }

  // the join

  /** The recipes in `u`'s basket. */
  function BasketRecipes(s: Store, u: UserId): (r: seq<RecipeId>)
    requires Readable(s)
    ensures forall id: RecipeId :: id in r <==> id in s.recipes && (u, id) in s.basket
    ensures NoDuplicates(r)
  {
    Below(s.nextRecipe, k => k in s.recipes && (u, k) in s.basket)
  }

  /** The IngredientRecipe rows linked to recipe `id`. */
  function RowsOf(s: Store, id: RecipeId): (r: seq<PortionId>)
    requires Readable(s) && id in s.recipes
    ensures forall k: PortionId :: k in r <==> k in s.recipes[id].portions && k in s.pool.rows
    ensures NoDuplicates(r)
  {
    Below(s.pool.next, k => k in s.recipes[id].portions && k in s.pool.rows)
  }

  /** The pairs of recipe `id` with each of `rows`. */
  function PairsWith(id: RecipeId, rows: seq<PortionId>): (r: seq<(RecipeId, PortionId)>)
    ensures forall p: (RecipeId, PortionId) :: p in r <==> p.0 == id && p.1 in rows
    ensures NoDuplicates(rows) ==> NoDuplicates(r)
  {
    var r := seq(|rows|, i requires 0 <= i < |rows| => (id, rows[i]));
    assert forall k | k in rows :: (id, k) in r by {
      forall k | k in rows ensures (id, k) in r {
        var i :| 0 <= i < |rows| && rows[i] == k;
        assert r[i] == (id, k);
      }
    }
    r
  }

  lemma NoDuplicatesTail<T>(s: seq<T>)
    requires NoDuplicates(s) && |s| > 0
    ensures NoDuplicates(s[1..]) && s[0] !in s[1..]
  {
    forall i, j | 0 <= i < j < |s[1..]| ensures s[1..][i] != s[1..][j] {
      assert s[1..][i] == s[i + 1] && s[1..][j] == s[j + 1];
    }
    forall i | 0 <= i < |s[1..]| ensures s[1..][i] != s[0] {
      assert s[1..][i] == s[i + 1];
    }
  }

  /** One pair per recipe of `ids` and row linked to it: the rows of the
      SQL join, each exactly once when the recipes are distinct. */
  function JoinFrom(s: Store, ids: seq<RecipeId>): (r: seq<(RecipeId, PortionId)>)
    requires Readable(s)
    requires forall i | 0 <= i < |ids| :: ids[i] in s.recipes
    ensures forall p: (RecipeId, PortionId) | p in r :: p.0 in ids && p.1 in s.pool.rows
    ensures forall p: (RecipeId, PortionId) ::
              p in r <==> p.0 in ids && p.0 in s.recipes && p.1 in s.recipes[p.0].portions && p.1 in s.pool.rows
    ensures NoDuplicates(ids) ==> NoDuplicates(r)
  {
    if |ids| == 0 then []
    else
      var head := PairsWith(ids[0], RowsOf(s, ids[0]));
      var rest := JoinFrom(s, ids[1..]);
      assert NoDuplicates(ids) ==> NoDuplicates(head + rest) by {
        if NoDuplicates(ids) {
          NoDuplicatesTail(ids);
          NoDuplicatesConcat(head, rest);
        }
      }
      head + rest
  }

  /** The joined rows for `u`'s basket. */
  function Join(s: Store, u: UserId): (r: seq<(RecipeId, PortionId)>)
    requires Readable(s)
    ensures forall p: (RecipeId, PortionId) ::
              p in r <==> (u, p.0) in s.basket && p.0 in s.recipes
                          && p.1 in s.recipes[p.0].portions && p.1 in s.pool.rows
    ensures NoDuplicates(r)
  {
    var ids := BasketRecipes(s, u);
    assert forall i | 0 <= i < |ids| :: ids[i] in s.recipes by {
      forall i | 0 <= i < |ids| ensures ids[i] in s.recipes {
        assert ids[i] in ids;
      }
    }
    JoinFrom(s, ids)
  }

  /** The value rows of the query: each joined row as its ingredient's name
      and unit with the row's amount. */
  function JoinItems(s: Store, u: UserId): (r: seq<Item>)
    requires Readable(s)
    ensures |r| == |Join(s, u)|
    ensures forall i | 0 <= i < |r| ::
              var row := s.pool.rows[Join(s, u)[i].1];
              r[i] == Item(s.ingredients[row.ingredient].name, s.ingredients[row.ingredient].unit, row.amount)
  {
    var pairs := Join(s, u);
    assert forall i | 0 <= i < |pairs| :: pairs[i].1 in s.pool.rows by {
      forall i | 0 <= i < |pairs| ensures pairs[i].1 in s.pool.rows {
        assert pairs[i] in pairs;
      }
    }
    seq(|pairs|, i requires 0 <= i < |pairs| =>
      var row := s.pool.rows[pairs[i].1];
      Item(s.ingredients[row.ingredient].name, s.ingredients[row.ingredient].unit, row.amount))
  }

  // grouping

  /** The reference sum: the amounts of the items with key `k`. */
  function Total(items: seq<Item>, k: Key): int {
    if |items| == 0 then 0
    else
      var last := items[|items| - 1];
      Total(items[..|items| - 1], k) + (if KeyOf(last) == k then last.amount else 0)
  }

  function Keys(items: seq<Item>): set<Key> {
    set i | 0 <= i < |items| :: KeyOf(items[i])
  }

  predicate KeysDistinct(groups: seq<Item>) {
    forall i, j | 0 <= i < j < |groups| :: KeyOf(groups[i]) != KeyOf(groups[j])
  }

  /** The amount grouped under `k`, zero when there is no such group. */
  function Amount(groups: seq<Item>, k: Key): int {
    if |groups| == 0 then 0
    else if KeyOf(groups[0]) == k then groups[0].amount
    else Amount(groups[1..], k)
  }

  lemma KeysCons(g: Item, rest: seq<Item>)
    ensures Keys([g] + rest) == {KeyOf(g)} + Keys(rest)
  {
    var r := [g] + rest;
    forall x | x in Keys(r) ensures x in {KeyOf(g)} + Keys(rest) {
      var i :| 0 <= i < |r| && KeyOf(r[i]) == x;
      if i > 0 { assert r[i] == rest[i - 1]; }
    }
    forall x | x in Keys(rest) ensures x in Keys(r) {
      var i :| 0 <= i < |rest| && KeyOf(rest[i]) == x;
      assert r[i + 1] == rest[i];
    }
    assert KeyOf(r[0]) in Keys(r);
  }

  lemma KeysSnoc(front: seq<Item>, last: Item)
    ensures Keys(front + [last]) == Keys(front) + {KeyOf(last)}
  {
    var r := front + [last];
    forall x | x in Keys(r) ensures x in Keys(front) + {KeyOf(last)} {
      var i :| 0 <= i < |r| && KeyOf(r[i]) == x;
      if i < |front| { assert r[i] == front[i]; }
    }
    forall x | x in Keys(front) ensures x in Keys(r) {
      var i :| 0 <= i < |front| && KeyOf(front[i]) == x;
      assert r[i] == front[i];
    }
    assert KeyOf(r[|front|]) in Keys(r);
  }

  lemma DistinctCons(g: Item, rest: seq<Item>)
    ensures KeysDistinct([g] + rest) <==> KeysDistinct(rest) && KeyOf(g) !in Keys(rest)
  {
    var r := [g] + rest;
    if KeysDistinct(r) {
      forall i, j | 0 <= i < j < |rest| ensures KeyOf(rest[i]) != KeyOf(rest[j]) {
        assert rest[i] == r[i + 1] && rest[j] == r[j + 1];
      }
      forall i | 0 <= i < |rest| ensures KeyOf(rest[i]) != KeyOf(g) {
        assert rest[i] == r[i + 1] && r[0] == g;
      }
    }
    if KeysDistinct(rest) && KeyOf(g) !in Keys(rest) {
      forall i, j | 0 <= i < j < |r| ensures KeyOf(r[i]) != KeyOf(r[j]) {
        assert r[j] == rest[j - 1];
        if i > 0 { assert r[i] == rest[i - 1]; }
        else { assert KeyOf(rest[j - 1]) in Keys(rest); }
      }
    }
  }

  lemma AmountCons(g: Item, rest: seq<Item>)
    ensures forall k :: Amount([g] + rest, k) == if KeyOf(g) == k then g.amount else Amount(rest, k)
  {
    assert ([g] + rest)[1..] == rest;
  }

  lemma {:induction false} AmountAt(groups: seq<Item>, i: nat)
    requires KeysDistinct(groups) && i < |groups|
    ensures Amount(groups, KeyOf(groups[i])) == groups[i].amount
  {
    if i > 0 {
      assert KeyOf(groups[0]) != KeyOf(groups[i]);
      assert groups[1..][i - 1] == groups[i];
      assert groups == [groups[0]] + groups[1..];
      DistinctCons(groups[0], groups[1..]);
      AmountAt(groups[1..], i - 1);
    }
  }

  /** Adds one item to the groups: to its key's group when there is one,
      otherwise as a new group at the end. */
  function Insert(groups: seq<Item>, it: Item): (r: seq<Item>)
    requires KeysDistinct(groups)
    ensures KeysDistinct(r)
    ensures Keys(r) == Keys(groups) + {KeyOf(it)}
    ensures forall k :: Amount(r, k) == Amount(groups, k) + (if k == KeyOf(it) then it.amount else 0)
  {
    if |groups| == 0 then
      KeysCons(it, []);
      AmountCons(it, []);
      assert [it] == [it] + [];
      [it]
    else
      var g := groups[0];
      var tail := groups[1..];
      assert groups == [g] + tail;
      KeysCons(g, tail);
      DistinctCons(g, tail);
      AmountCons(g, tail);
      if KeyOf(g) == KeyOf(it) then
        var merged := g.(amount := g.amount + it.amount);
        KeysCons(merged, tail);
        DistinctCons(merged, tail);
        AmountCons(merged, tail);
        [merged] + tail
      else
        var rest := Insert(tail, it);
        KeysCons(g, rest);
        DistinctCons(g, rest);
        AmountCons(g, rest);
        [g] + rest
  }

  /** The query's `values(name, unit).annotate(Sum(amount))`: one group per
      distinct key, holding the sum of that key's amounts. */
  function Group(items: seq<Item>): (r: seq<Item>)
    ensures KeysDistinct(r)
    ensures Keys(r) == Keys(items)
    ensures forall k :: Amount(r, k) == Total(items, k)
  {
    if |items| == 0 then []
    else
      var front := items[..|items| - 1];
      var last := items[|items| - 1];
      assert items == front + [last];
      KeysSnoc(front, last);
      Insert(Group(front), last)
  }

  /** Each group of `Group(items)` holds the reference sum of its key. */
  lemma GroupSums(items: seq<Item>, i: nat)
    requires i < |Group(items)|
    ensures Group(items)[i].amount == Total(items, KeyOf(Group(items)[i]))
  {
    AmountAt(Group(items), i);
  }

  // rendering

  function DigitChar(d: nat): char
    requires d < 10
  {
    "0123456789"[d]
  }

  predicate IsDigit(c: char) {
    '0' <= c <= '9'
  }

  function DigitValue(c: char): nat
    requires IsDigit(c)
  {
    (c as int) - ('0' as int)
  }

  /** The decimal digits of `n`, without leading zeros. */
  function NatDigits(n: nat): (r: string)
    ensures |r| >= 1
    ensures forall i | 0 <= i < |r| :: IsDigit(r[i])
    ensures r[0] == '0' ==> n == 0
  {
    if n < 10 then [DigitChar(n)]
    else NatDigits(n / 10) + [DigitChar(n % 10)]
  }

  /** Python's `str` of an int: a minus sign, then the digits. */
  function IntToString(n: int): string {
    if n < 0 then "-" + NatDigits(-n) else NatDigits(n)
  }

  function ParseDigits(s: string): nat
    requires forall i | 0 <= i < |s| :: IsDigit(s[i])
  {
    if |s| == 0 then 0
    else ParseDigits(s[..|s| - 1]) * 10 + DigitValue(s[|s| - 1])
  }

  function ParseInt(s: string): int
    requires |s| >= 1
    requires s[0] == '-' || IsDigit(s[0])
    requires forall i | 1 <= i < |s| :: IsDigit(s[i])
  {
    if s[0] == '-' then -(ParseDigits(s[1..]) as int) else ParseDigits(s) as int
  }

  lemma {:induction false} NatDigitsRoundTrip(n: nat)
    ensures ParseDigits(NatDigits(n)) == n
  {
    if n >= 10 {
      NatDigitsRoundTrip(n / 10);
      var d := NatDigits(n);
      assert d[..|d| - 1] == NatDigits(n / 10);
    }
  }

  /** The amount printed on a line reads back as the amount. */
  lemma ParseSigned(d: string)
    requires |d| >= 1 && forall i | 0 <= i < |d| :: IsDigit(d[i])
    ensures ParseInt("-" + d) == -(ParseDigits(d) as int)
  {
    var t := "-" + d;
    assert t[1..] == d;
  }

  lemma IntToStringRoundTrip(n: int)
    ensures ParseInt(IntToString(n)) == n
  {
    if n < 0 {
      NatDigitsRoundTrip(-n);
      ParseSigned(NatDigits(-n));
    } else {
      NatDigitsRoundTrip(n);
    }
  }

  /** One line of the report. */
  function RenderLine(g: Item): string {
    "* " + g.name + " (" + g.unit + ") -- " + IntToString(g.amount) + "\n\n"
  }

  /** Strings one after another. */
  function Concat(parts: seq<string>): string {
    if |parts| == 0 then "" else parts[0] + Concat(parts[1..])
  }

  lemma {:induction false} ConcatAppend(a: seq<string>, b: seq<string>)
    ensures Concat(a + b) == Concat(a) + Concat(b)
  {
    if |a| > 0 {
      assert (a + b)[0] == a[0];
      assert (a + b)[1..] == a[1..] + b;
      ConcatAppend(a[1..], b);
    } else {
      assert a + b == b;
    }
  }

  /** The report lines of the groups, in order. */
  function Lines(groups: seq<Item>): (r: seq<string>)
    ensures |r| == |groups|
    ensures forall i | 0 <= i < |groups| :: r[i] == RenderLine(groups[i])
  {
    seq(|groups|, i requires 0 <= i < |groups| => RenderLine(groups[i]))
  }

  /** The report: the lines of the groups one after another. */
  function Render(groups: seq<Item>): string {
    Concat(Lines(groups))
  }

  lemma RenderAppend(a: seq<Item>, b: seq<Item>)
    ensures Render(a + b) == Render(a) + Render(b)
  {
    assert Lines(a + b) == Lines(a) + Lines(b);
    ConcatAppend(Lines(a), Lines(b));
  }

  /** The report consists of the lines before group `i`, the line of group
      `i`, then the lines after it. */
  lemma RenderHasLine(groups: seq<Item>, i: nat)
    requires i < |groups|
    ensures Render(groups) == Render(groups[..i]) + RenderLine(groups[i]) + Render(groups[i + 1..])
  {
    var lines := Lines(groups);
    assert lines[..i] == Lines(groups[..i]);
    assert lines[i + 1..] == Lines(groups[i + 1..]);
    ConcatSplit(lines, i);
  }

  lemma {:induction false} ConcatSplit(parts: seq<string>, i: nat)
    requires i < |parts|
    ensures Concat(parts) == Concat(parts[..i]) + parts[i] + Concat(parts[i + 1..])
  {
    assert parts == (parts[..i] + [parts[i]]) + parts[i + 1..];
    ConcatAppend(parts[..i] + [parts[i]], parts[i + 1..]);
    ConcatAppend(parts[..i], [parts[i]]);
    assert Concat([parts[i]]) == parts[i] + Concat([]);
  }

  /** A report with at least one group is not empty. */
  lemma RenderNonEmpty(groups: seq<Item>)
    requires |groups| > 0
    ensures Render(groups) != ""
  {
    var lines := Lines(groups);
    assert |lines[0]| > 0 by {
      assert lines[0] == RenderLine(groups[0]);
    }
    assert Concat(lines) == lines[0] + Concat(lines[1..]);
  }

  // the endpoint

  /** The groups of `u`'s shopping list: one per distinct name and unit in
      the joined rows, holding the sum over them. */
  function ShoppingGroups(s: Store, u: UserId): (r: seq<Item>)
    requires Readable(s)
    ensures KeysDistinct(r)
    ensures Keys(r) == Keys(JoinItems(s, u))
    ensures forall i | 0 <= i < |r| :: r[i].amount == Total(JoinItems(s, u), KeyOf(r[i]))
  {
    var r := Group(JoinItems(s, u));
    assert forall i | 0 <= i < |r| :: r[i].amount == Total(JoinItems(s, u), KeyOf(r[i])) by {
      forall i | 0 <= i < |r| ensures r[i].amount == Total(JoinItems(s, u), KeyOf(r[i])) {
        GroupSums(JoinItems(s, u), i);
      }
    }
    r
  }

  predicate HasBasket(s: Store, u: UserId) {
    exists p | p in s.basket :: p.0 == u
  }

  /** `download_shopping_cart`: signed-in viewers only; an empty basket is
      refused; otherwise the report of the viewer's groups. */
  function DownloadShoppingCart(s: Store, v: Viewer): (r: Result<string>)
    requires Readable(s)
    ensures !IsAuthenticatedOrAdmin(v) <==> r == Err(Forbidden)
    ensures v.Member? ==> (r == Err(BadRequest(EmptyBasket)) <==> !HasBasket(s, v.id))
    ensures r.Ok? ==> v.Member? && r.value == Render(ShoppingGroups(s, v.id))
    ensures v.Member? && HasBasket(s, v.id) ==> r == Ok(Render(ShoppingGroups(s, v.id)))
  {
    if !IsAuthenticatedOrAdmin(v) then Err(Forbidden)
    else if !HasBasket(s, v.id) then Err(BadRequest(EmptyBasket))
    else Ok(Render(ShoppingGroups(s, v.id)))
  }

  /** In a valid store every basket recipe has an ingredient row, so a
      non-empty basket never yields an empty report. */
  lemma NonEmptyBasketGivesLines(s: Store, u: UserId)
    requires Valid(s) && u in s.users && HasBasket(s, u)
    ensures DownloadShoppingCart(s, Member(u, s.users[u].isStaff)).Ok?
    ensures DownloadShoppingCart(s, Member(u, s.users[u].isStaff)).value != ""
  {
    var p :| p in s.basket && p.0 == u;
    assert p.1 in s.recipes;
    assert RecipeValid(s, s.recipes[p.1]);
    var k :| k in s.recipes[p.1].portions;
    var pairs := Join(s, u);
    assert (p.1, k) in pairs;
    var items := JoinItems(s, u);
    assert |items| > 0;
    assert KeyOf(items[0]) in Keys(items);
    var groups := ShoppingGroups(s, u);
    assert |groups| > 0;
    RenderNonEmpty(groups);
  }
}
