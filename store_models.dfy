/**
 * The catalog data model of store/models.py: categories in a tree with their
 * full path, products, customers and their display name, orders, comments
 * and carts, with the choice lists, defaults and uniqueness constraints the
 * models declare.
 *
 * Each table is a value: categories and products as maps from primary key
 * to record, line items and comments as sequences of rows.
 */
module Store {
  import opened Wrappers
  import opened Text
  import SlugMixin

  /** `PositiveIntegerField`: 0 to 2147483647. */
  type PositiveInt = x: int | 0 <= x <= 2147483647

  /** `PositiveSmallIntegerField`: 0 to 32767. */
  type PositiveSmallInt = x: int | 0 <= x <= 32767

  // -----------------------------------------------------------------------
  // Category tree
  // -----------------------------------------------------------------------

  datatype Category = Category(title: string, slug: string, description: string,
                               parent: Option<int>, topProduct: Option<int>)

  type CategoryTree = map<int, Category>

  /** The ids from the root down to `id`, found by following parent
      references at most `fuel` times; `None` when the walk does not reach a
      root in that many steps or meets a missing parent. */
  function Chain(t: CategoryTree, id: int, fuel: nat): (r: Option<seq<int>>)
    requires id in t
    ensures r.Some? ==> |r.value| >= 1 && |r.value| <= fuel + 1
    ensures r.Some? ==> r.value[|r.value| - 1] == id
    ensures r.Some? ==> forall k :: 0 <= k < |r.value| ==> r.value[k] in t
    ensures r.Some? ==> t[r.value[0]].parent == None
    ensures r.Some? ==> forall k :: 0 < k < |r.value| ==> t[r.value[k]].parent == Some(r.value[k - 1])
    decreases fuel
  {
    match t[id].parent
    case None => Some([id])
    case Some(p) =>
      if p !in t || fuel == 0 then None
      else
        match Chain(t, p, fuel - 1)
        case None => None
        case Some(c) => Some(c + [id])
  }

  /** More fuel does not change a walk that already reached the root. */
  lemma {:induction false} ChainMoreFuel(t: CategoryTree, id: int, fuel: nat, more: nat)
    requires id in t && fuel <= more && Chain(t, id, fuel).Some?
    ensures Chain(t, id, more) == Chain(t, id, fuel)
    decreases fuel
  {
    match t[id].parent
    case None =>
    case Some(p) =>
      ChainMoreFuel(t, p, fuel - 1, more - 1);
  }

  /** Every parent reference names a stored category and following them from
      any category reaches a root: the table is a forest. With `|t|` steps
      every root is reached, since an acyclic walk visits each node once. */
  ghost predicate IsForest(t: CategoryTree)
  {
    forall id :: id in t ==> Chain(t, id, |t|).Some?
  }

  /** `get_ancestors(include_self=True)`: root first, the category last. */
  function Ancestors(t: CategoryTree, id: int): (r: seq<int>)
    requires IsForest(t) && id in t
    ensures |r| >= 1 && r[|r| - 1] == id
    ensures forall k :: 0 <= k < |r| ==> r[k] in t
    ensures t[r[0]].parent == None
    ensures forall k :: 0 < k < |r| ==> t[r[k]].parent == Some(r[k - 1])
  {
    Chain(t, id, |t|).value
  }

  /** The titles of the categories `ids`, in the same order. */
  function Titles(t: CategoryTree, ids: seq<int>): (r: seq<string>)
    requires forall k :: 0 <= k < |ids| ==> ids[k] in t
    ensures |r| == |ids|
    ensures forall k :: 0 <= k < |ids| ==> r[k] == t[ids[k]].title
  {
    if ids == [] then [] else [t[ids[0]].title] + Titles(t, ids[1..])
  }

  /** One more id adds its title at the end. */
  lemma {:induction false} TitlesSnoc(t: CategoryTree, ids: seq<int>, id: int)
    requires forall k :: 0 <= k < |ids| ==> ids[k] in t
    requires id in t
    ensures Titles(t, ids + [id]) == Titles(t, ids) + [t[id].title]
  {
    var l := Titles(t, ids + [id]);
    var r := Titles(t, ids) + [t[id].title];
    assert |l| == |r|;
    forall k | 0 <= k < |l| ensures l[k] == r[k] {
      assert (ids + [id])[k] == if k < |ids| then ids[k] else id;
    }
  }

  /** `get_full_path`: the ancestors' titles, root first, joined by `>`. It
      always ends with the category's own title. */
  function FullPath(t: CategoryTree, id: int): (r: string)
    requires IsForest(t) && id in t
    ensures |t[id].title| <= |r| && r[|r| - |t[id].title|..] == t[id].title
  {
    var titles := Titles(t, Ancestors(t, id));
    JoinEndsWithLast(titles, '>');
    Join(titles, '>')
  }

  /** A root category's full path is its own title. */
  lemma FullPathOfRoot(t: CategoryTree, id: int)
    requires IsForest(t) && id in t && t[id].parent == None
    ensures FullPath(t, id) == t[id].title
  {
  }

  /** A child's full path is its parent's full path, a `>`, and its own
      title. */
  lemma FullPathOfChild(t: CategoryTree, id: int, p: int)
    requires IsForest(t) && id in t && t[id].parent == Some(p)
    ensures p in t
    ensures FullPath(t, id) == FullPath(t, p) + ">" + t[id].title
  {
    var n := |t|;
    assert Chain(t, id, n).Some?;
    var c := Chain(t, p, n - 1).value;
    ChainMoreFuel(t, p, n - 1, n);
    assert Ancestors(t, id) == c + [id];
    TitlesSnoc(t, c, id);
    JoinSnoc(Titles(t, c), t[id].title, '>');
  }

  /** When no title on the way down holds a `>`, splitting the full path at
      `>` gives back the titles, root first, and the last part is the
      category's own title. */
  lemma FullPathSplits(t: CategoryTree, id: int)
    requires IsForest(t) && id in t
    requires forall k :: 0 <= k < |Ancestors(t, id)| ==> '>' !in t[Ancestors(t, id)[k]].title
    ensures Split(FullPath(t, id), '>') == Titles(t, Ancestors(t, id))
    ensures var parts := Split(FullPath(t, id), '>'); parts[|parts| - 1] == t[id].title
  {
    SplitJoin(Titles(t, Ancestors(t, id)), '>');
  }

  /** The last `>`-separated part of a full path is the category's own
      title exactly when that title holds no `>`; the ancestors' titles do
      not matter. */
  lemma FullPathLastPart(t: CategoryTree, id: int)
    requires IsForest(t) && id in t
    ensures var p := Split(FullPath(t, id), '>');
            p[|p| - 1] == t[id].title <==> '>' !in t[id].title
  {
    SplitLastPart(FullPath(t, id), '>');
    if '>' !in t[id].title {
      FullPathLastPartIsTitle(t, id);
    }
  }

  lemma FullPathLastPartIsTitle(t: CategoryTree, id: int)
    requires IsForest(t) && id in t && '>' !in t[id].title
    ensures LastPart(FullPath(t, id), '>') == t[id].title
  {
    var titles := Titles(t, Ancestors(t, id));
    assert titles[|titles| - 1] == t[id].title;
    JoinLastPart(titles, '>');
  }

  /** A `>` inside a title makes full paths ambiguous: a root titled `A>B`
      and a child `B` of a root `A` get the same path. */
  lemma FullPathAmbiguous()
    ensures var t1 := map[1 := Category("A>B", "a-b", "", None, None)];
            var t2 := map[1 := Category("A", "a", "", None, None),
                          2 := Category("B", "b", "", Some(1), None)];
            IsForest(t1) && IsForest(t2) && FullPath(t1, 1) == FullPath(t2, 2)
  {
    var t1 := map[1 := Category("A>B", "a-b", "", None, None)];
    var t2 := map[1 := Category("A", "a", "", None, None),
                  2 := Category("B", "b", "", Some(1), None)];
    assert |t2| == 2 by { assert t2.Keys == {1, 2}; }
    assert Chain(t2, 1, 1) == Some([1]);
    assert t2[2].parent == Some(1) && [1] + [2] == [1, 2];
    assert Chain(t2, 2, |t2|) == Some([1, 2]);
    FullPathOfChild(t2, 2, 1);
  }

  /** The rows the slug mixin's collision query reads from a category table. */
  function CategoryRows(t: CategoryTree): set<SlugMixin.SlugRow>
  {
    set id | id in t :: SlugMixin.SlugRow(id, t[id].parent, t[id].slug)
  }

  /** `unique_together = ('parent', 'slug')` as the database enforces it: a
      NULL parent is distinct from every other, so root categories are not
      constrained. */
  ghost predicate ParentSlugUnique(t: CategoryTree)
  {
    forall a, b :: a in t && b in t && a != b && t[a].parent.Some? && t[a].parent == t[b].parent
      ==> t[a].slug != t[b].slug
  }

  /** Slugs kept distinct per parent by the slug mixin satisfy the
      `(parent, slug)` constraint. */
  lemma MixinScopesGiveParentSlugUnique(t: CategoryTree)
    requires SlugMixin.ScopesDistinct(CategoryRows(t), true)
    ensures ParentSlugUnique(t)
  {
    forall a, b | a in t && b in t && a != b && t[a].parent.Some? && t[a].parent == t[b].parent
      ensures t[a].slug != t[b].slug
    {
      var x := SlugMixin.SlugRow(a, t[a].parent, t[a].slug);
      var y := SlugMixin.SlugRow(b, t[b].parent, t[b].slug);
      assert x in CategoryRows(t) && y in CategoryRows(t);
      assert SlugMixin.InScope(true, x.parent, y);
    }
  }

  /** The constraint alone lets two roots share a slug. */
  lemma RootSlugsUnconstrained()
    ensures var t := map[1 := Category("Men", "men", "", None, None),
                         2 := Category("Men", "men", "", None, None)];
            ParentSlugUnique(t) && !SlugMixin.ScopesDistinct(CategoryRows(t), true)
  {
    var t := map[1 := Category("Men", "men", "", None, None),
                 2 := Category("Men", "men", "", None, None)];
    var x := SlugMixin.SlugRow(1, t[1].parent, t[1].slug);
    var y := SlugMixin.SlugRow(2, t[2].parent, t[2].slug);
    assert x in CategoryRows(t) && y in CategoryRows(t);
    assert x != y && SlugMixin.InScope(true, x.parent, y) && x.slug == y.slug;
  }

  // -----------------------------------------------------------------------
  // Products and discounts
  // -----------------------------------------------------------------------

  datatype Product = Product(name: string, slug: string, categories: set<int>,
                             unitPrice: PositiveInt, description: string,
                             shortDescription: string, inventory: PositiveInt,
                             discounts: set<int>, isActive: bool)

  /** A product as first created: no slug yet (the mixin fills it in), price
      0, active. */
  function NewProduct(name: string, description: string, shortDescription: string,
                      inventory: PositiveInt): (p: Product)
    ensures p.name == name && p.inventory == inventory
    ensures p.unitPrice == 0 && p.isActive && p.slug == []
    ensures p.categories == {} && p.discounts == {}
  {
    Product(name, [], {}, 0, description, shortDescription, inventory, {}, true)
  }

  type ProductTable = map<int, Product>

  function ProductRows(t: ProductTable): set<SlugMixin.SlugRow>
  {
    set id | id in t :: SlugMixin.SlugRow(id, None, t[id].slug)
  }

  /** `slug = SlugField(unique=True)`: no two products share a slug. */
  ghost predicate ProductSlugUnique(t: ProductTable)
  {
    forall a, b :: a in t && b in t && a != b ==> t[a].slug != t[b].slug
  }

  /** A product has no `parent` attribute, so the mixin's scope is the
      whole table, and that is exactly the global uniqueness of slugs. */
  lemma ProductScopeIsGlobal(t: ProductTable)
    ensures SlugMixin.ScopesDistinct(ProductRows(t), false) <==> ProductSlugUnique(t)
  {
    if SlugMixin.ScopesDistinct(ProductRows(t), false) {
      forall a, b | a in t && b in t && a != b ensures t[a].slug != t[b].slug {
        var x := SlugMixin.SlugRow(a, None, t[a].slug);
        var y := SlugMixin.SlugRow(b, None, t[b].slug);
        assert x in ProductRows(t) && y in ProductRows(t);
      }
    }
  }

  // -----------------------------------------------------------------------
  // Comments
  // -----------------------------------------------------------------------

  datatype CommentStatus = Waiting | Approved | NotApproved

  const DefaultCommentStatus: CommentStatus := Waiting

  /** The stored code of each comment status. */
  function CommentStatusCode(s: CommentStatus): (code: string)
    ensures 1 <= |code| <= 2
    ensures code == "w" <==> s == Waiting
    ensures code == "a" <==> s == Approved
    ensures code == "na" <==> s == NotApproved
  {
    match s
    case Waiting => "w"
    case Approved => "a"
    case NotApproved => "na"
  }

  /** Reading a stored status code; `None` for a value outside the choices. */
  function ParseCommentStatus(code: string): (r: Option<CommentStatus>)
    ensures r.Some? ==> CommentStatusCode(r.value) == code
    ensures r.None? ==> forall s :: CommentStatusCode(s) != code
  {
    if code == "w" then Some(Waiting)
    else if code == "a" then Some(Approved)
    else if code == "na" then Some(NotApproved)
    else None
  }

  /** Every status code is read back as its status and fits the column's
      `max_length=2`. */
  lemma CommentStatusRoundTrip(s: CommentStatus)
    ensures ParseCommentStatus(CommentStatusCode(s)) == Some(s)
    ensures 1 <= |CommentStatusCode(s)| <= 2
  {
  }

  datatype Comment = Comment(product: int, user: Option<int>, name: string,
                             body: string, status: CommentStatus)

  /** A comment as first created: waiting for moderation. */
  function NewComment(product: int, user: Option<int>, name: string, body: string): (c: Comment)
    ensures c.product == product && c.user == user && c.name == name && c.body == body
    ensures c.status == Waiting && CommentStatusCode(c.status) == "w"
  {
    Comment(product, user, name, body, DefaultCommentStatus)
  }

  /** `approved_comments`: the product's comments whose status is approved,
      each as often as it is stored, in table order. */
  function ApprovedComments(comments: seq<Comment>, product: int): (r: seq<Comment>)
    ensures forall c :: c in r ==> c.product == product && c.status == Approved
    ensures forall c: Comment :: c.product == product && c.status == Approved ==>
              multiset(r)[c] == multiset(comments)[c]
    ensures |r| <= |comments|
  {
    if comments == [] then []
    else
      var rest := ApprovedComments(comments[1..], product);
      var c := comments[0];
      assert comments == [c] + comments[1..];
      if c.product == product && c.status == Approved then [c] + rest else rest
  }

  // -----------------------------------------------------------------------
  // Customers
  // -----------------------------------------------------------------------

  /** `full_name`: first and last name with a space between, stripped, or
      the username when that leaves nothing, which happens exactly when both
      names are blank. */
  function FullName(firstName: string, lastName: string, username: string): (r: string)
    ensures AllSpace(firstName) && AllSpace(lastName) ==> r == username
    ensures !(AllSpace(firstName) && AllSpace(lastName)) ==>
              r != [] && IsTrimmed(r) && r == Strip(firstName + " " + lastName)
  {
    var s := Strip(firstName + " " + lastName);
    SpacedPairBlank(firstName, lastName);
    StripEmptyIffSpace(firstName + " " + lastName);
    if s != [] then s else username
  }

  /** `first + " " + last` is blank exactly when both names are. */
  lemma {:induction false} SpacedPairBlank(firstName: string, lastName: string)
    ensures AllSpace(firstName + " " + lastName) <==> AllSpace(firstName) && AllSpace(lastName)
  {
    var s := firstName + " " + lastName;
    assert forall k :: 0 <= k < |firstName| ==> s[k] == firstName[k];
    assert forall k :: 0 <= k < |lastName| ==> s[|firstName| + 1 + k] == lastName[k];
    if AllSpace(firstName) && AllSpace(lastName) {
      forall k | 0 <= k < |s| ensures IsSpace(s[k]) {
        if k > |firstName| { assert s[k] == lastName[k - |firstName| - 1]; }
      }
    }
  }

  /** Both names given without surrounding whitespace: `first last`. */
  lemma {:induction false} FullNameBoth(firstName: string, lastName: string, username: string)
    requires firstName != [] && lastName != [] && IsTrimmed(firstName) && IsTrimmed(lastName)
    ensures FullName(firstName, lastName, username) == firstName + " " + lastName
  {
    var m := firstName + " " + lastName;
    assert m[0] == firstName[0] && m[|m| - 1] == lastName[|lastName| - 1];
    StripTrimmed(m);
  }

  /** Two non-blank names: whitespace before the first name and after the
      last is dropped, and whitespace between them is kept. */
  lemma {:induction false} FullNameInnerSpaceKept(firstName: string, lastName: string, username: string)
    requires !AllSpace(firstName) && !AllSpace(lastName)
    ensures FullName(firstName, lastName, username) == LStrip(firstName) + " " + RStrip(lastName)
  {
    var f := LStrip(firstName);
    var l := RStrip(lastName);
    var a := firstName[..|firstName| - |f|];
    var b := lastName[|l|..];
    var m := f + " " + l;
    assert f == [] ==> AllSpace(firstName);
    assert l == [] ==> AllSpace(lastName);
    assert firstName == a + f && lastName == l + b;
    assert firstName + " " + lastName == a + m + b;
    assert m[0] == f[0] && m[|m| - 1] == l[|l| - 1];
    assert AllSpace(a) by {
      forall k | 0 <= k < |a| ensures IsSpace(a[k]) { assert a[k] == firstName[k]; }
    }
    assert AllSpace(b) by {
      forall k | 0 <= k < |b| ensures IsSpace(b[k]) { assert b[k] == lastName[|l| + k]; }
    }
    StripSurrounded(a, m, b);
  }

  /** No name at all, or only whitespace: the username. */
  lemma {:induction false} FullNameFallback(firstName: string, lastName: string, username: string)
    requires AllSpace(firstName) && AllSpace(lastName)
    ensures FullName(firstName, lastName, username) == username
  {
  }

  /** Only a first name: that name, stripped. */
  lemma {:induction false} FullNameFirstOnly(firstName: string, lastName: string, username: string)
    requires AllSpace(lastName) && !AllSpace(firstName)
    ensures FullName(firstName, lastName, username) == Strip(firstName)
  {
    SpacedPairBlank([], lastName);
    assert [] + " " + lastName == " " + lastName;
    assert firstName + " " + lastName == firstName + (" " + lastName);
    StripSpaceSuffix(firstName, " " + lastName);
  }

  /** Only a last name: that name, stripped. */
  lemma {:induction false} FullNameLastOnly(firstName: string, lastName: string, username: string)
    requires AllSpace(firstName) && !AllSpace(lastName)
    ensures FullName(firstName, lastName, username) == Strip(lastName)
  {
    SpacedPairBlank(firstName, []);
    assert firstName + " " + [] == firstName + " ";
    StripSpacePrefix(firstName + " ", lastName);
  }

  // -----------------------------------------------------------------------
  // Orders, order items, carts
  // -----------------------------------------------------------------------

  datatype OrderStatus = Paid | Unpaid | Canceled

  const DefaultOrderStatus: OrderStatus := Unpaid

  /** The stored code of each order status. */
  function OrderStatusCode(s: OrderStatus): (code: string)
    ensures |code| == 1
    ensures code == "p" <==> s == Paid
    ensures code == "u" <==> s == Unpaid
    ensures code == "c" <==> s == Canceled
  {
    match s
    case Paid => "p"
    case Unpaid => "u"
    case Canceled => "c"
  }

  /** Reading a stored status code; `None` for a value outside the choices. */
  function ParseOrderStatus(code: string): (r: Option<OrderStatus>)
    ensures r.Some? ==> OrderStatusCode(r.value) == code
    ensures r.None? ==> forall s :: OrderStatusCode(s) != code
  {
    if code == "p" then Some(Paid)
    else if code == "u" then Some(Unpaid)
    else if code == "c" then Some(Canceled)
    else None
  }

  /** Every status code is read back as its status and fits the column's
      `max_length=1`. */
  lemma OrderStatusRoundTrip(s: OrderStatus)
    ensures ParseOrderStatus(OrderStatusCode(s)) == Some(s)
    ensures |OrderStatusCode(s)| == 1
  {
  }

  datatype Order = Order(customer: int, status: OrderStatus, notes: string)

  /** An order as first created: unpaid. */
  function NewOrder(customer: int, notes: string): (o: Order)
    ensures o.customer == customer && o.notes == notes
    ensures o.status == Unpaid && OrderStatusCode(o.status) == "u"
  {
    Order(customer, DefaultOrderStatus, notes)
  }

  datatype OrderItem = OrderItem(order: int, product: int, quantity: PositiveSmallInt,
                                 unitPrice: PositiveInt)

  /** An order line as first created: quantity 1. */
  function NewOrderItem(order: int, product: int, unitPrice: PositiveInt): (i: OrderItem)
    ensures i.order == order && i.product == product && i.unitPrice == unitPrice
    ensures i.quantity == 1
  {
    OrderItem(order, product, 1, unitPrice)
  }

  datatype CartItem = CartItem(cart: int, product: int, quantity: PositiveSmallInt)

  /** No two rows share a key. */
  ghost predicate UniqueOn<T, K>(rows: seq<T>, key: T -> K)
  {
    forall i, j :: 0 <= i < j < |rows| ==> key(rows[i]) != key(rows[j])
  }

  /** The number of rows with key `k`. */
  function CountKey<T, K(==)>(rows: seq<T>, key: T -> K, k: K): nat
  {
    if rows == [] then 0
    else (if key(rows[0]) == k then 1 else 0) + CountKey(rows[1..], key, k)
  }

  /** A key is unique exactly when no key value occurs twice. */
  lemma {:induction false} UniqueOnIff<T, K>(rows: seq<T>, key: T -> K)
    ensures UniqueOn(rows, key) <==> forall k :: CountKey(rows, key, k) <= 1
  {
    if rows == [] {
      assert forall k :: CountKey(rows, key, k) == 0;
    } else {
      var tail := rows[1..];
      var head := key(rows[0]);
      assert forall i :: 0 <= i < |tail| ==> tail[i] == rows[i + 1];
      UniqueOnIff(tail, key);
      CountPositive(tail, key);
      assert forall k :: CountKey(rows, key, k) == (if head == k then 1 else 0) + CountKey(tail, key, k);
      if UniqueOn(rows, key) {
        assert UniqueOn(tail, key);
        CountZero(tail, key, head);
        forall k ensures CountKey(rows, key, k) <= 1 {
          assert CountKey(tail, key, k) <= 1;
        }
      } else {
        var i, j :| 0 <= i < j < |rows| && key(rows[i]) == key(rows[j]);
        if i == 0 {
          assert tail[j - 1] == rows[j] && key(tail[j - 1]) == head;
          assert CountKey(tail, key, head) >= 1;
          assert CountKey(rows, key, head) == 1 + CountKey(tail, key, head);
        } else {
          assert key(tail[i - 1]) == key(tail[j - 1]);
          var k :| CountKey(tail, key, k) > 1;
          assert CountKey(rows, key, k) > 1;
        }
      }
    }
  }

  /** A key value no row has is counted zero times. */
  lemma {:induction false} CountZero<T, K>(rows: seq<T>, key: T -> K, k: K)
    requires forall i :: 0 <= i < |rows| ==> key(rows[i]) != k
    ensures CountKey(rows, key, k) == 0
  {
    if rows != [] {
      assert forall i :: 0 <= i < |rows[1..]| ==> rows[1..][i] == rows[i + 1];
      CountZero(rows[1..], key, k);
    }
  }

  /** A row whose key is `k` makes `k`'s count positive. */
  lemma {:induction false} CountPositive<T, K>(rows: seq<T>, key: T -> K)
    ensures forall i :: 0 <= i < |rows| ==> CountKey(rows, key, key(rows[i])) >= 1
  {
    if rows != [] {
      CountPositive(rows[1..], key);
      assert forall i :: 0 < i < |rows| ==> rows[i] == rows[1..][i - 1];
    }
  }

  /** `unique_together = [['order', 'product']]`. */
  ghost predicate OrderLinesUnique(items: seq<OrderItem>)
  {
    UniqueOn(items, (i: OrderItem) => (i.order, i.product))
  }

  /** `unique_together = [['cart', 'product']]`. */
  ghost predicate CartLinesUnique(items: seq<CartItem>)
  {
    UniqueOn(items, (i: CartItem) => (i.cart, i.product))
  }

  /** Under the constraint an order holds at most one line per product. */
  lemma OneOrderLinePerProduct(items: seq<OrderItem>, order: int, product: int)
    requires OrderLinesUnique(items)
    ensures CountKey(items, (i: OrderItem) => (i.order, i.product), (order, product)) <= 1
  {
    UniqueOnIff(items, (i: OrderItem) => (i.order, i.product));
  }

  /** Under the constraint a cart holds at most one line per product. */
  lemma OneCartLinePerProduct(items: seq<CartItem>, cart: int, product: int)
    requires CartLinesUnique(items)
    ensures CountKey(items, (i: CartItem) => (i.cart, i.product), (cart, product)) <= 1
  {
    UniqueOnIff(items, (i: CartItem) => (i.cart, i.product));
  }
}
