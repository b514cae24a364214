/**
 * `GenerateSlugMixin.save` (core/models/mixins.py): on saving a record that
 * has no slug but has a source value, derive a base slug with `slugify` and
 * append `-1`, `-2`, ... until the candidate is not held by another record
 * of the same scope.
 *
 * The table the query reads is passed in as a set of rows, and
 * `slugify(value, allow_unicode=True)` is passed in as a function: both lie
 * outside this code. A Python `None` slug or source is modelled as the empty
 * string, since `not value` treats the two alike.
 */
module SlugMixin {
  import opened Wrappers
  import opened Text

  /** One stored record as the collision query sees it. `parent` is the
      primary key of the parent record, `None` for a NULL parent. */
  datatype SlugRow = SlugRow(pk: int, parent: Option<int>, slug: string)

  predicate StartsWith(s: string, prefix: string)
  {
    |prefix| <= |s| && s[..|prefix|] == prefix
  }

  /** The `k`-th candidate the loop tries: the base itself for `k == 0`,
      then `f"{base}-{k}"`. */
  function Candidate(base: string, k: nat): (c: string)
    ensures StartsWith(c, base)
  {
    if k == 0 then base else base + "-" + NatToString(k)
  }

  /** Distinct counters give distinct candidates, so the loop never tries
      the same slug twice. */
  lemma CandidateInjective(base: string, j: nat, k: nat)
    requires Candidate(base, j) == Candidate(base, k)
    ensures j == k
  {
    if j != 0 && k != 0 {
      var c := Candidate(base, j);
      assert NatToString(j) == c[|base| + 1..];
      assert NatToString(k) == c[|base| + 1..];
      NatToStringInjective(j, k);
    }
  }

  /** The first `n` candidates. */
  ghost function CandidatesBelow(base: string, n: nat): set<string>
  {
    set k | 0 <= k < n :: Candidate(base, k)
  }

  lemma {:induction false} CandidatesBelowSize(base: string, n: nat)
    ensures |CandidatesBelow(base, n)| == n
  {
    if n > 0 {
      CandidatesBelowSize(base, n - 1);
      CandidatesBelowStep(base, n - 1);
    }
  }

  /** The next candidate is new, so it adds one slug to those tried. */
  lemma CandidatesBelowStep(base: string, n: nat)
    ensures CandidatesBelow(base, n + 1) == CandidatesBelow(base, n) + {Candidate(base, n)}
    ensures Candidate(base, n) !in CandidatesBelow(base, n)
  {
    forall k | 0 <= k < n ensures Candidate(base, k) != Candidate(base, n) {
      if Candidate(base, k) == Candidate(base, n) {
        CandidateInjective(base, k, n);
      }
    }
  }

  /** Whether `row` lies in the scope of a record: the same parent when the
      model has a `parent` attribute, every record otherwise. */
  predicate InScope(hasParent: bool, parent: Option<int>, row: SlugRow)
  {
    !hasParent || row.parent == parent
  }

  /** The query result `existing_slugs`: slugs of the rows in scope that
      start with the base slug, leaving out the row whose primary key is the
      record's own (`exclude(pk=None)` leaves nothing out). */
  function Collisions(rows: set<SlugRow>, hasParent: bool, parent: Option<int>,
                      selfPk: Option<int>, base: string): (taken: set<string>)
    ensures forall s :: s in taken ==> StartsWith(s, base)
  {
    set r | r in rows && InScope(hasParent, parent, r) && Some(r.pk) != selfPk
                      && StartsWith(r.slug, base) :: r.slug
  }

  /** `s` is the slug the loop settles on: the first candidate not taken. */
  ghost predicate IsFirstFree(base: string, taken: set<string>, s: string)
  {
    exists k: nat :: s == Candidate(base, k) && s !in taken &&
                     forall j :: 0 <= j < k ==> Candidate(base, j) in taken
  }

  /** The suffix loop of `save`. It returns the slug it settles on and the
      counter of that candidate; it tries at most `|taken| + 1` candidates. */
  method FirstFreeSlug(base: string, taken: set<string>) returns (slug: string, tries: nat)
    ensures slug == Candidate(base, tries)
    ensures slug !in taken
    ensures forall j :: 0 <= j < tries ==> Candidate(base, j) in taken
    ensures tries <= |taken|
  {
    slug := base;
    var counter: nat := 1;
    while slug in taken
      invariant 1 <= counter <= |taken| + 1
      invariant slug == Candidate(base, counter - 1)
      invariant forall j :: 0 <= j < counter - 1 ==> Candidate(base, j) in taken
      decreases |taken| + 1 - counter
    {
      CandidatesBelowSize(base, counter);
      assert CandidatesBelow(base, counter) <= taken;
      SubsetSize(CandidatesBelow(base, counter), taken);
      slug := base + "-" + NatToString(counter);
      counter := counter + 1;
    }
    tries := counter - 1;
  }

  lemma {:induction false} SubsetSize<T>(a: set<T>, b: set<T>)
    requires a <= b
    ensures |a| <= |b|
  {
    if a != {} {
      var x :| x in a;
      SubsetSize(a - {x}, b - {x});
    }
  }

  /** A record using the mixin: the fields `save` reads and writes. `hasParent`
      says whether the model has a `parent` attribute at all (a category
      does, a product does not). */
  class SluggedRecord {
    const hasParent: bool
    var pk: Option<int>
    var parent: Option<int>
    var source: string
    var slug: string

    constructor (hasParent: bool, pk: Option<int>, parent: Option<int>, source: string, slug: string)
      ensures this.hasParent == hasParent && this.pk == pk && this.parent == parent
      ensures this.source == source && this.slug == slug
    {
      this.hasParent := hasParent;
      this.pk := pk;
      this.parent := parent;
      this.source := source;
      this.slug := slug;
    }

    /** `save` up to the call of the underlying ORM save: it assigns the
        slug field and nothing else. A record that already has a slug, or
        has no source value, keeps its slug; otherwise the slug becomes the
        first candidate built on `slugify(source)` that no other record of
        its scope holds. */
    method Save(rows: set<SlugRow>, slugify: string -> string)
      modifies this`slug
      ensures old(slug) != [] || source == [] ==> slug == old(slug)
      ensures old(slug) == [] && source != [] ==>
                IsFirstFree(slugify(source), Collisions(rows, hasParent, parent, pk, slugify(source)), slug)
    {
      if slug == [] && source != [] {
        var base := slugify(source);
        var existing := Collisions(rows, hasParent, parent, pk, base);
        var unique, tries := FirstFreeSlug(base, existing);
        slug := unique;
      }
    }
  }

  /** The generated slug is the base slug or the base slug followed by `-k`
      for some `k >= 1`. */
  lemma GeneratedSlugShape(base: string, taken: set<string>, s: string)
    requires IsFirstFree(base, taken, s)
    ensures s == base || exists k: nat :: k >= 1 && s == base + "-" + NatToString(k)
  {
    var k: nat :| s == Candidate(base, k) && s !in taken &&
                  forall j :: 0 <= j < k ==> Candidate(base, j) in taken;
    if k >= 1 { assert s == base + "-" + NatToString(k); }
  }

  /** The generated slug differs from the slug of every other row in the
      record's scope: the prefix filter of the query loses nothing, because
      every candidate starts with the base slug. */
  lemma GeneratedSlugIsFree(rows: set<SlugRow>, hasParent: bool, parent: Option<int>,
                            selfPk: Option<int>, base: string, s: string)
    requires IsFirstFree(base, Collisions(rows, hasParent, parent, selfPk, base), s)
    ensures forall r :: r in rows && InScope(hasParent, parent, r) && Some(r.pk) != selfPk ==> r.slug != s
  {
    var taken := Collisions(rows, hasParent, parent, selfPk, base);
    var k: nat :| s == Candidate(base, k) && s !in taken &&
                  forall j :: 0 <= j < k ==> Candidate(base, j) in taken;
    forall r | r in rows && InScope(hasParent, parent, r) && Some(r.pk) != selfPk
      ensures r.slug != s
    {
      assert r.slug == s ==> r.slug in taken;
    }
  }

  /** Exactly one slug is the first free one: the base slug when it is not
      taken, otherwise the least free `base-k`. */
  lemma FirstFreeUnique(base: string, taken: set<string>, s: string, t: string)
    requires IsFirstFree(base, taken, s) && IsFirstFree(base, taken, t)
    ensures s == t
  {
    var k: nat :| s == Candidate(base, k) && s !in taken &&
                  forall j :: 0 <= j < k ==> Candidate(base, j) in taken;
    var m: nat :| t == Candidate(base, m) && t !in taken &&
                  forall j :: 0 <= j < m ==> Candidate(base, j) in taken;
    assert k < m ==> Candidate(base, k) in taken;
    assert m < k ==> Candidate(base, m) in taken;
  }

  /** When the base slug is free it is the generated slug. */
  lemma FreeBaseIsKept(base: string, taken: set<string>)
    requires base !in taken
    ensures IsFirstFree(base, taken, base)
  {
    assert base == Candidate(base, 0);
  }

  /** The generated slug is empty exactly when `slugify` gave an empty base
      and no other record of the scope holds the empty slug. */
  lemma GeneratedSlugEmpty(base: string, taken: set<string>, s: string)
    requires IsFirstFree(base, taken, s)
    ensures s == [] <==> base == [] && [] !in taken
  {
    var k: nat :| s == Candidate(base, k) && s !in taken &&
                  forall j :: 0 <= j < k ==> Candidate(base, j) in taken;
    assert k > 0 ==> Candidate(base, 0) in taken;
  }

  /** The record's own stored row never counts as a collision, whatever slug
      it holds. */
  lemma OwnRowIgnored(rows: set<SlugRow>, own: SlugRow, hasParent: bool,
                      parent: Option<int>, base: string)
    ensures Collisions(rows + {own}, hasParent, parent, Some(own.pk), base)
         == Collisions(rows, hasParent, parent, Some(own.pk), base)
  {
    var p := Some(own.pk);
    var big := Collisions(rows + {own}, hasParent, parent, p, base);
    var small := Collisions(rows, hasParent, parent, p, base);
    forall s | s in big ensures s in small {
      var r :| r in rows + {own} && InScope(hasParent, parent, r) && Some(r.pk) != p
               && StartsWith(r.slug, base) && r.slug == s;
      assert r in rows;
    }
    forall s | s in small ensures s in big {
      var r :| r in rows && InScope(hasParent, parent, r) && Some(r.pk) != p
               && StartsWith(r.slug, base) && r.slug == s;
      assert r in rows + {own};
    }
  }

  // -----------------------------------------------------------------------
  // Slugs stay distinct within each scope
  // -----------------------------------------------------------------------

  /** No two rows of one scope share a slug: per parent for a model with a
      `parent` attribute, over the whole table otherwise. */
  ghost predicate ScopesDistinct(rows: set<SlugRow>, hasParent: bool)
  {
    forall x, y :: x in rows && y in rows && x != y && InScope(hasParent, x.parent, y)
      ==> x.slug != y.slug
  }

  /** The underlying save writes the record's row: the row with the same
      primary key is replaced, or a new one added. */
  function Upsert(rows: set<SlugRow>, row: SlugRow): (r: set<SlugRow>)
    ensures row in r
    ensures forall x :: x in r && x != row ==> x in rows && x.pk != row.pk
    ensures forall x :: x in rows && x.pk != row.pk ==> x in r
  {
    (set x | x in rows && x.pk != row.pk) + {row}
  }

  /** Saving a row whose slug was generated by the mixin keeps the slugs of
      every scope distinct. The collision query ran with the record's own
      primary key, or with none for a record not stored yet. */
  lemma GeneratedSlugKeepsScopesDistinct(rows: set<SlugRow>, hasParent: bool,
                                         selfPk: Option<int>, row: SlugRow, base: string)
    requires ScopesDistinct(rows, hasParent)
    requires selfPk == Some(row.pk) || (selfPk == None && forall r :: r in rows ==> r.pk != row.pk)
    requires IsFirstFree(base, Collisions(rows, hasParent, row.parent, selfPk, base), row.slug)
    ensures ScopesDistinct(Upsert(rows, row), hasParent)
  {
    GeneratedSlugIsFree(rows, hasParent, row.parent, selfPk, base, row.slug);
    var u := Upsert(rows, row);
    forall x, y | x in u && y in u && x != y && InScope(hasParent, x.parent, y)
      ensures x.slug != y.slug
    {
      if x == row {
        assert y in rows && Some(y.pk) != selfPk;
      } else if y == row {
        assert x in rows && Some(x.pk) != selfPk;
        assert InScope(hasParent, row.parent, x);
      }
    }
  }
}
