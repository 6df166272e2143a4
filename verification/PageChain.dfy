// Singly linked chains of pages: heap files and hash buckets.
module PageChains {
  import opened Common

  /** What every page holds. */
  type Store = map<nat, Bytes>

  /** The page each page links to. */
  type Links = map<nat, int>

  function LinkAt(links: Links, page: int): int {
    if page in links then links[page] else INVALID_PAGE_ID
  }

  /** The page that follows position `i` of a chain. */
  function Following(chain: seq<nat>, i: nat): int {
    if i + 1 < |chain| then chain[i + 1] else INVALID_PAGE_ID
  }

  /** `chain` lists the pages reached from `first`, up to the page that links to none. */
  ghost predicate Linked(links: Links, first: int, chain: seq<nat>) {
    && first == (if chain == [] then INVALID_PAGE_ID else chain[0])
    && forall i: nat :: i < |chain| ==> chain[i] in links && links[chain[i]] == Following(chain, i)
  }

  lemma ChainTail(links: Links, first: int, chain: seq<nat>)
    requires Linked(links, first, chain) && chain != []
    ensures Linked(links, LinkAt(links, first), chain[1..])
  {
    assert chain[0] in links;
    forall i: nat | i < |chain| - 1
      ensures chain[1..][i] in links && links[chain[1..][i]] == Following(chain[1..], i)
    {
      assert chain[1..][i] == chain[i + 1];
    }
  }

  /** The chain is determined by its first page. */
  lemma {:induction false} ChainIsUnique(links: Links, first: int, a: seq<nat>, b: seq<nat>)
    requires Linked(links, first, a) && Linked(links, first, b)
    ensures a == b
    decreases |a|
  {
    if a != [] && b != [] {
      ChainTail(links, first, a);
      ChainTail(links, first, b);
      ChainIsUnique(links, LinkAt(links, first), a[1..], b[1..]);
      assert a == [a[0]] + a[1..] && b == [b[0]] + b[1..];
    }
  }

  /** No page occurs twice in a chain: otherwise the chain would never end. */
  lemma {:induction false} ChainIsAcyclic(links: Links, first: int, chain: seq<nat>, i: nat, j: nat)
    requires Linked(links, first, chain) && i < j < |chain|
    ensures chain[i] != chain[j]
    decreases |chain| - j
  {
    if chain[i] == chain[j] {
      assert Following(chain, i) == Following(chain, j);
      if j + 1 < |chain| {
        ChainIsAcyclic(links, first, chain, i + 1, j + 1);
      }
    }
  }

  lemma Distinct(links: Links, first: int, chain: seq<nat>)
    requires Linked(links, first, chain)
    ensures forall i: nat, j: nat :: i < j < |chain| ==> chain[i] != chain[j]
  {
    forall i: nat, j: nat | i < j < |chain| ensures chain[i] != chain[j] {
      ChainIsAcyclic(links, first, chain, i, j);
    }
  }

  /** A chain stays linked while the links of its pages stay as they are. */
  lemma LinkedFrame(a: Links, b: Links, first: int, chain: seq<nat>)
    requires Linked(a, first, chain)
    requires forall p: nat :: p in chain && p in a ==> p in b && b[p] == a[p]
    ensures Linked(b, first, chain)
  {
    forall i: nat | i < |chain| ensures chain[i] in b && b[chain[i]] == Following(chain, i) {
      assert chain[i] in chain;
    }
  }

  /** Linking a new last page. */
  lemma LinkedAppend(a: Links, b: Links, first: int, chain: seq<nat>, last: nat)
    requires Linked(a, first, chain) && chain != []
    requires last in b && b[last] == INVALID_PAGE_ID
    requires chain[|chain| - 1] in b && b[chain[|chain| - 1]] == last
    requires forall p: nat :: p in chain && p != chain[|chain| - 1] && p in a ==> p in b && b[p] == a[p]
    ensures Linked(b, first, chain + [last])
  {
    Distinct(a, first, chain);
    var longer := chain + [last];
    forall i: nat | i < |longer| ensures longer[i] in b && b[longer[i]] == Following(longer, i) {
      if i + 1 < |chain| {
        assert chain[i] in chain && Following(longer, i) == Following(chain, i);
      }
    }
  }

  // ---- Changes ----

  /** Page `page` of store `a` has become `b[page]`, and nothing else has changed. */
  ghost predicate PageChanged(a: Store, b: Store, page: nat) {
    page in a && page in b && b == a[page := b[page]]
  }

  /** Nothing that `a` holds has been lost or changed. */
  ghost predicate Extends(a: Store, b: Store) {
    forall p: nat :: p in a ==> p in b && b[p] == a[p]
  }

  /** A page that was allocated and possibly freed again leaves nothing behind but itself. */
  lemma StoreExtends(a: Store, b: Store, page: nat)
    requires b == a || (page !in a && b - {page} == a - {page})
    ensures Extends(a, b) && (page !in a && page !in b ==> b == a)
  {
    forall p: nat | p in a ensures p in b && b[p] == a[p] {
      if b != a {
        assert p in a - {page};
        assert p in b - {page} && (b - {page})[p] == (a - {page})[p];
      }
    }
    if page !in a && page !in b {
      assert a - {page} == a && b - {page} == b;
    }
  }

  /** A page that was allocated, written and given back. */
  lemma NewPageGivenBack(a: Store, m: Store, b: Store, page: nat)
    requires page !in a && page in m && m == a[page := m[page]] && b - {page} == m - {page}
    ensures Extends(a, b) && (page !in b ==> b == a)
  {
    assert m - {page} == a - {page};
    StoreExtends(a, b, page);
  }

  /** The pages `freed` of store `a` have been given back: without disk faults exactly
      they are gone, and other pages stay as they are in any case. */
  ghost predicate Freed(a: Store, s: Store, freed: set<nat>, reliable: bool) {
    && (forall p: nat :: p in a && p !in freed ==> p in s && s[p] == a[p])
    && s.Keys <= a.Keys
    && (reliable ==> s.Keys !! freed)
  }

  lemma FreeStep(a: Store, s: Store, t: Store, freed: set<nat>, p: nat, reliable: bool)
    requires Freed(a, s, freed, reliable) && p in a && t - {p} == s - {p} && (reliable ==> p !in t)
    ensures Freed(a, t, freed + {p}, reliable)
  {
    forall q: nat | q in t && q != p ensures q in s && t[q] == s[q] {
      assert q in t - {p};
      assert q in s - {p} && (s - {p})[q] == (t - {p})[q];
    }
    forall q: nat | q in s && q != p ensures q in t && t[q] == s[q] {
      assert q in s - {p};
      assert q in t - {p} && (s - {p})[q] == (t - {p})[q];
    }
  }

  lemma FreedExactly(a: Store, s: Store, freed: set<nat>)
    requires Freed(a, s, freed, true)
    ensures s == a - freed
  {
  }

  // ---- Ownership ----

  /** A change of the pages of one owner, who had `before` and has `after`: he gains only
      pages that were not allocated, and all other pages stay as they are. */
  ghost predicate OwnChange(a: Store, b: Store, before: set<nat>, after: set<nat>) {
    && before <= after
    && (forall p: nat :: p in after && p !in before ==> p !in a)
    && (forall p: nat :: p in a && p !in before ==> p in b && b[p] == a[p])
  }

  /** Every page that has been allocated belongs to the owner. */
  ghost predicate NewOwned(a: Store, b: Store, after: set<nat>) {
    forall p: nat :: p in b && p !in a ==> p in after
  }

  /** What one owner does leaves the pages of another one alone. */
  lemma OthersKeep(a: Store, b: Store, before: set<nat>, after: set<nat>, other: set<nat>)
    requires OwnChange(a, b, before, after) && before !! other
    requires forall p: nat :: p in other ==> p in a
    ensures after !! other
    ensures forall p: nat :: p in other ==> p in b && b[p] == a[p]
  {
    forall p: nat | p in after ensures p !in other {
      if p !in before { assert p !in a; }
    }
  }

  /** A walk along the chain has been at its first `k` pages. */
  ghost predicate BeenAt(visited: set<int>, chain: seq<nat>, k: nat) {
    k <= |chain| && forall p :: p in visited ==> p in chain[..k]
  }

  lemma NotBeenYet(chain: seq<nat>, k: nat)
    requires k <= |chain|
    ensures BeenAt({}, chain, k)
  {
  }

  lemma NextIsNew(visited: set<int>, chain: seq<nat>, k: nat)
    requires BeenAt(visited, chain, k) && k < |chain| && chain[k] !in chain[..k]
    ensures chain[k] !in visited && BeenAt(visited + {chain[k]}, chain, k + 1)
  {
    assert chain[..k + 1] == chain[..k] + [chain[k]];
  }
}
