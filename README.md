# delvaanshop catalog core in Dafny

This project models the three pieces of logic in the delvaanshop Django
storefront that go beyond configuration.

1. **Slug assignment** (`GenerateSlugMixin.save`). A record saved without a
   slug but with a source value (a category's title, a product's name) gets
   `slugify(source)` as its slug. When another record of the same scope
   already holds that slug, `-1`, `-2`, … is appended until the slug is
   free. The scope is the same parent for a model with a `parent` attribute
   (categories) and the whole table otherwise (products). The mixin is the
   class `SlugMixin.SluggedRecord`. `Save` assigns only the slug field. The
   suffix loop is the method `SlugMixin.FirstFreeSlug`, and its loop
   invariants prove that it stops after at most `|existing| + 1` candidates.
2. **The URL converter for slugs** (`UnicodeSlugConverter`). The module
   `Converters` holds the pattern a path segment must match and `to_python`.
   `to_python` strips surrounding whitespace and rewrites Arabic Yeh (U+064A)
   as Farsi Yeh (U+06CC) and Arabic Kaf (U+0643) as Keheh (U+06A9).
3. **The catalog data model** (`store/models.py`). The module `Store` holds
   the category forest with `get_full_path`, `Customer.full_name`,
   `Product.approved_comments`, the order and comment status choices with
   their defaults, the default field values, and the uniqueness constraints.

`Text` states the Python string built-ins these use: `str.strip()` (with
Python's exact whitespace set), `">".join` and `str(n)`. It also defines
`split`, `lstrip` and `rstrip`. The code itself calls none of them; the
model uses them to state properties: `Store.FullPathSplits`,
`Store.FullPathLastPart` and
`Converters.SegmentsWellFormed` split, and `Store.FullNameInnerSpaceKept`
strips one side.
`Wrappers` holds `Option`.

Some things lie outside the repository's code: the database rows the
collision query reads, Django's `slugify`, and the Unicode `\w` class of
Python's `re` module. They are parameters of the model: a set of rows, a
function `string -> string` and a predicate `char -> bool`. A few lemmas
need two facts about Python's `\w`: it does not match `-`, and it matches
no whitespace. Those lemmas take both facts as preconditions.

The code differs from what one might expect of it in three places. The
model follows the code in each.

- A generated slug can be empty. When `slugify` returns `""` (a title made
  only of punctuation) and no other record of the scope holds `""`, `save`
  stores `""`. `SlugMixin.GeneratedSlugEmpty` states exactly when this
  happens.
- `unique_together = ('parent', 'slug')` does not constrain root
  categories, because the database treats each NULL parent as distinct.
  The mixin acts only when a record is saved without a slug. For the slugs
  it generates, it keeps root categories apart too, because its query
  filters on `parent IS NULL` (`SlugMixin.GeneratedSlugKeepsScopesDistinct`).
  A slug supplied by the caller skips the collision loop. Nothing then stops
  two roots from sharing it. `Store.RootSlugsUnconstrained` shows two such
  roots that the constraint allows.
- The last `>`-separated part of a full path is the category's own title
  exactly when that title contains no `>`. Ancestors' titles do not matter
  (`Store.FullPathLastPart`). Splitting the whole path back into the titles
  needs every title on the path to be free of `>` (`Store.FullPathSplits`).
  `Store.FullPathAmbiguous` shows two different categories with the same
  path.

## Model

| member | source | states |
|---|---|---|
| `SlugMixin.SluggedRecord.Save` | core/models/mixins.py:13-38 | assigns only the slug field. A record that has a slug, or has no source value, keeps its slug. Otherwise the slug becomes the first free candidate built on `slugify(source)`, checked against the slugs of the record's scope other than its own row |
| `SlugMixin.FirstFreeSlug` | core/models/mixins.py:19-36 | the suffix loop returns a candidate that is not taken, every earlier candidate is taken, and at most `\|taken\|` suffixed candidates are tried |
| `SlugMixin.Candidate` | core/models/mixins.py:35 | every candidate `base`, `base-k` starts with the base slug |
| `SlugMixin.CandidateInjective` | core/models/mixins.py:35 | distinct counters give distinct candidates, so no candidate is tried twice |
| `SlugMixin.Collisions` | core/models/mixins.py:23-31 | the collision set holds only slugs that start with the base slug |
| `SlugMixin.GeneratedSlugShape` | core/models/mixins.py:18-36 | a generated slug is `base` or `base-k` for some `k >= 1` |
| `SlugMixin.GeneratedSlugIsFree` | core/models/mixins.py:23-32 | a generated slug differs from the slug of every other row in the record's scope, so the prefix filter loses nothing |
| `SlugMixin.FirstFreeUnique` | core/models/mixins.py:19-36 | only one slug is the first free one, so the loop's result is determined by the base slug and the collision set |
| `SlugMixin.FreeBaseIsKept` | core/models/mixins.py:19-32 | when the base slug is free, it is the result |
| `SlugMixin.GeneratedSlugEmpty` | core/models/mixins.py:18-36 | a generated slug is empty exactly when the base slug is empty and no other record of the scope holds the empty slug |
| `SlugMixin.OwnRowIgnored` | core/models/mixins.py:29 | the record's own stored row never adds to the collision set |
| `SlugMixin.Upsert` | core/models/mixins.py:38 | the underlying save writes the record's row. Afterwards the table holds that row, keeps every row with another primary key, and holds nothing else |
| `SlugMixin.GeneratedSlugKeepsScopesDistinct` | core/models/mixins.py:23-38 | if no two rows of a scope share a slug, this still holds after a record with a generated slug is saved, whether the record is new or already stored |
| `Text.Strip` | store/converters.py:15 | `strip()` returns the infix of its input that starts at the first non-whitespace character. Only whitespace is cut from either end, and the result does not start or end with whitespace |
| `Text.StripSurrounded` | store/models.py:96 | stripping a trimmed string that is surrounded by whitespace gives back that string |
| `Text.JoinSnoc` | store/models.py:42 | joining one more title adds `>` and that title at the end |
| `Text.SplitJoin` | store/models.py:42 | splitting at `>` undoes the join when no part contains `>` |
| `Text.JoinEndsWithLast` | store/models.py:42 | the join ends with its last part |
| `Text.JoinLastPart` | store/models.py:42 | when the last part holds no separator, what follows the last separator of the join is exactly that part |
| `Text.StripEmptyIffSpace` | store/models.py:96 | `strip()` gives the empty string exactly when the input is all whitespace, which is when `or` falls back |
| `Text.NatToString` | core/models/mixins.py:35 | the counter is written as at least one decimal digit, with no leading zero |
| `Text.ParseNatToString` | core/models/mixins.py:35 | reading the digits back gives the counter |
| `Text.NatToStringInjective` | core/models/mixins.py:35 | different counters give different suffixes |
| `Converters.MatchesPattern` | store/converters.py:7 | the regex as a grammar: a non-empty run of class characters, then the end or a hyphen and another match. A match is non-empty and begins with a class character |
| `Converters.PatternIffSegments` | store/converters.py:7 | the pattern accepts a string exactly when every part between hyphens is a non-empty run of `\w` or U+0600–U+06FF characters. This excludes the empty string and leading, trailing or doubled hyphens |
| `Converters.EndsWithClassChar` | store/converters.py:7 | an accepted string ends with a class character, never with a hyphen |
| `Converters.AllCharsSlugOrHyphen` | store/converters.py:7 | every character of an accepted string is a hyphen or a class character |
| `Converters.ReplaceChar` | store/converters.py:17-18 | `re.sub` with a one-character class is a left-to-right scan. Its result has the input's length, holds `to` wherever the input holds `from`, and keeps every other character in place |
| `Converters.ToPython` | store/converters.py:9-19 | the result is the stripped infix of the input with Arabic Yeh and Kaf replaced one for one and everything else unchanged. It contains neither letter and does not start or end with whitespace. Its length is the input length minus the whitespace removed from both ends |
| `Converters.ToPythonIdempotent` | store/converters.py:15-18 | applying `to_python` twice gives the same result as applying it once |
| `Converters.AcceptedNeedsNoStrip` | store/converters.py:7-18 | on a string the pattern accepted, the strip does nothing. The output has the input's length and differs from it only in the two letters |
| `Converters.NormalizeKeepsPattern` | store/converters.py:17-18 | rewriting the two letters keeps a string inside the pattern |
| `Converters.ToPythonKeepsPattern` | store/converters.py:7-19 | `to_python` maps a string the pattern accepted to one it still accepts |
| `Converters.ToUrl` | store/converters.py:21-26 | `to_url` is `slugify(value, allow_unicode=True)`, a library call passed in as a parameter. It has no contract (see "Left out") |
| `Store.Chain` | store/models.py:42 | walking parent references gives the ids from a root down to the category. Each id is stored, the first has no parent, and each next id's parent is the one before it |
| `Store.Ancestors` | store/models.py:42 | `get_ancestors(include_self=True)` holds only stored categories. It starts at a root, ends with the category itself, and each entry's parent is the entry before it |
| `Store.FullPath` | store/models.py:41-42 | `get_full_path` is the ancestors' titles joined by `>` (`Text.Join` is `">".join`), and always ends with the category's own title |
| `Store.FullPathOfRoot` | store/models.py:41-42 | the full path of a root category is its title |
| `Store.FullPathOfChild` | store/models.py:41-42 | the full path of a child is its parent's full path, then `>`, then its own title |
| `Store.FullPathSplits` | store/models.py:41-42 | when no title on the path holds `>`, splitting the path at `>` gives the titles from the root down |
| `Store.FullPathLastPart` | store/models.py:41-42 | the last `>`-separated part of the path is the category's own title exactly when that title holds no `>`, whatever the ancestors' titles are |
| `Store.FullPathAmbiguous` | store/models.py:41-42 | a root titled `A>B` and a child `B` of a root `A` get the same full path |
| `Store.MixinScopesGiveParentSlugUnique` | store/models.py:31 | slugs that the mixin keeps distinct per parent satisfy `unique_together = ('parent', 'slug')` |
| `Store.ParentSlugUnique` | store/models.py:31 | `unique_together = ('parent', 'slug')` as the database enforces it: two categories with the same non-NULL parent have different slugs. A NULL parent is distinct from every other |
| `Store.RootSlugsUnconstrained` | store/models.py:31 | the constraint allows two root categories with the same slug, which per-parent distinctness forbids |
| `Store.NewProduct` | store/models.py:57-72 | a new product has no slug yet, unit price 0, no categories or discounts, and is active |
| `Store.ProductSlugUnique` | store/models.py:63 | `unique=True` on the product slug: no two products share a slug |
| `Store.ProductScopeIsGlobal` | store/models.py:63 | for products, per-scope distinctness of the mixin is the same as global slug uniqueness (`unique=True`) |
| `Store.CommentStatusCode` | store/models.py:147-155 | the choice codes: waiting is `w`, approved `a`, not approved `na`. Each status has its own code, of length 1 or 2 |
| `Store.ParseCommentStatus` | store/models.py:147-155 | a stored comment status code is one of `w`, `a`, `na` and reads back to the status with that code. Any other value is rejected |
| `Store.CommentStatusRoundTrip` | store/models.py:147-162 | each comment status reads back from its code, and each code fits `max_length=2` |
| `Store.NewComment` | store/models.py:157-162 | a new comment is waiting (`w`) |
| `Store.ApprovedComments` | store/models.py:83-85 | `approved_comments` holds only the product's approved comments, and holds each of them as often as it is stored |
| `Store.FullName` | store/models.py:94-96 | `full_name` is the username exactly when both names are blank. Otherwise it is `first + " " + last` stripped, which is non-empty |
| `Store.FullNameBoth` | store/models.py:96 | with both names given and trimmed, `full_name` is `first last` |
| `Store.FullNameFallback` | store/models.py:96 | with both names empty or whitespace, `full_name` is the username |
| `Store.FullNameFirstOnly` | store/models.py:96 | with only a first name, `full_name` is that name stripped |
| `Store.FullNameLastOnly` | store/models.py:96 | with only a last name, `full_name` is that name stripped |
| `Store.FullNameInnerSpaceKept` | store/models.py:96 | with two non-blank names, `full_name` is the first name without leading whitespace, a space, and the last name without trailing whitespace. Whitespace between the names is kept |
| `Store.OrderStatusCode` | store/models.py:111-119 | the choice codes: paid is `p`, unpaid `u`, canceled `c`. Each status has its own one-character code |
| `Store.ParseOrderStatus` | store/models.py:111-119 | a stored order status code is one of `p`, `u`, `c` and reads back to the status with that code. Any other value is rejected |
| `Store.OrderStatusRoundTrip` | store/models.py:111-122 | each order status reads back from its code, and each code fits `max_length=1` |
| `Store.NewOrder` | store/models.py:121-123 | a new order is unpaid (`u`) |
| `Store.NewOrderItem` | store/models.py:132-136 | a new order line has quantity 1 |
| `Store.UniqueOnIff` | store/models.py:141-142 | a uniqueness constraint holds exactly when no key value occurs in more than one row |
| `Store.OrderLinesUnique` | store/models.py:141-142 | `unique_together = [['order', 'product']]`: no two order lines share an order and a product |
| `Store.OneOrderLinePerProduct` | store/models.py:141-142 | under `unique_together = [['order', 'product']]`, an order has at most one line per product |
| `Store.CartLinesUnique` | store/models.py:188-189 | `unique_together = [['cart', 'product']]`: no two cart lines share a cart and a product |
| `Store.OneCartLinePerProduct` | store/models.py:188-189 | under `unique_together = [['cart', 'product']]`, a cart has at most one line per product |

## Left out

- Django's `slugify(value, allow_unicode=True)` is library code. It is a function parameter of `SluggedRecord.Save` and `Converters.ToUrl`.
- `Converters.ToUrl`: `to_url` is exactly a call to `slugify`. The model states nothing further about it, because what `slugify` returns is library behaviour.
- Python's Unicode `\w` class is a parameter `isWord`. Lemmas that need its facts state them as preconditions: it does not match `-`, and it matches no whitespace.
- The collision query and the write done by `super().save()` run against the database. The rows are a parameter of `Save`, and the write is the function `Upsert`, used in lemmas.
- The race between the collision check and the write comes from concurrency. Two saves running at once can both pick the same slug, and the model does not capture that.
- `SluggedRecord.Save` models `None` and `""` as the same empty string for the slug and the source value, because `not value` treats them alike.
- MPTT internals (`lft`, `rght`, `tree_id`, `level`), `order_insertion_by = ['title']` and `get_cached_trees` belong to a third-party library. Ancestors are found by walking parent references instead, at most `|table|` steps, which is enough for any forest.
- Order and related-object loading: `get_ancestors` returns root first, which `Store.Chain` models. The order of `approved_comments` is the database's, so `Store.ApprovedComments` keeps table order. `select_related('user')` only affects loading.
- `Discount.discount` is a floating-point field. Products keep only the ids of their discounts.
- Timestamps (`auto_now`, `auto_now_add`), the random `uuid4` cart id, image and rich-text storage: these come from the clock, randomness and storage backends. They are not fields of the model.
- `Address` has field declarations only and no behaviour. Apart from `full_name`, `Customer` is also fields only.
- `__str__`, `get_absolute_url` and `reverse` are display and URL-routing glue.
- Views, forms, admin, the REST API, URL routing, template tags and the two data scripts (`import_json.py`, `transfer_categories.py`) are framework configuration or one-off database scripts. The view filters and `transfer_categories.py` also use a `category` field that `Product` does not have.
- A session-backed cart has no implementation in the code, so it is not modelled. The persisted `Cart`/`CartItem` entities are modelled through their uniqueness constraint.
- The `max_length` limits on character and slug fields are checked by form validation and the database, not by the code modelled here. The model does not enforce them on slugs or names. It does show that the status codes fit their limits.
