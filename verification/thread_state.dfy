/** Handing out per-thread state slots: each thread gets an index into a shared `int[64]`,
    and a fresh store is started once the index would come within a cache line of the end. */
module ThreadState {

  const CACHE_LINE_SIZE: nat := 64
  const INTEGER_BYTES: nat := 4
  const STORE_SIZE: nat := 64
  const PADDING: nat := CACHE_LINE_SIZE / INTEGER_BYTES
  /** The largest index handed out. */
  const LAST_INDEX: nat := STORE_SIZE - PADDING

  /** A provider: which `int[STORE_SIZE]` it hands out slots of (stores are numbered in the
      order they are allocated) and the next index. */
  datatype Provider = Provider(currentStore: nat, index: int)

  datatype Reference = Reference(index: int, store: nat)

  predicate Valid(p: Provider) {
    0 <= p.index <= LAST_INDEX
  }

  function NewProvider(): (r: Provider)
    ensures Valid(r) && r.index == 0
  {
    Provider(0, 0)
  }

  /** `newThreadStateReference`: the current slot, then the next one, moving to a fresh
      store past the last index. */
  function NewThreadStateReference(p: Provider): (r: (Reference, Provider))
    ensures Valid(p) ==> 0 <= r.0.index <= LAST_INDEX && r.0.index < STORE_SIZE && Valid(r.1)
    ensures r.0.store == p.currentStore
    ensures p.index < LAST_INDEX ==> r.1.currentStore == p.currentStore && r.1.index == r.0.index + 1
    ensures p.index >= LAST_INDEX ==> r.1.currentStore != p.currentStore && r.1.index == 0
  {
    var reference := Reference(p.index, p.currentStore);
    var index := p.index + 1;
    if index > STORE_SIZE - PADDING then (reference, Provider(p.currentStore + 1, 0))
    else (reference, p.(index := index))
  }

  /** The provider after `n` references were handed out by a fresh one. */
  function After(n: nat): Provider {
    if n == 0 then NewProvider() else NewThreadStateReference(After(n - 1)).1
  }

  /** The `n`-th reference a fresh provider hands out (counting from 0). */
  function Nth(n: nat): Reference {
    NewThreadStateReference(After(n)).0
  }

  /** A fresh provider fills each store with the indices 0 to 48 in turn. */
  lemma {:induction false} AfterIsPosition(n: nat)
    ensures After(n) == Provider(n / 49, n % 49)
  {
    if n > 0 {
      AfterIsPosition(n - 1);
      var q, r := (n - 1) / 49, (n - 1) % 49;
      NextPosition(q, r);
      assert n - 1 == 49 * q + r;
      if r < LAST_INDEX {
        DivModUnique(n, q, r + 1);
      } else {
        DivModUnique(n, q + 1, 0);
      }
    }
  }

  /** Handing out a reference moves to the next index, or to index 0 of the next store after the
      last index. */
  lemma NextPosition(q: nat, r: int)
    requires 0 <= r <= LAST_INDEX
    ensures NewThreadStateReference(Provider(q, r)).1 == if r < LAST_INDEX then Provider(q, r + 1) else Provider(q + 1, 0)
  {
  }

  /** Quotient and remainder by 49 are determined by any decomposition. */
  lemma DivModUnique(k: int, q: int, r: int)
    requires k == 49 * q + r && 0 <= r <= LAST_INDEX
    ensures k / 49 == q && k % 49 == r
  {
  }

  /** The `n`-th reference is slot `n mod 49` of store `n div 49`, so no two references
      handed out by one provider share a slot. */
  lemma NthReference(n: nat, m: nat)
    ensures Nth(n) == Reference(n % 49, n / 49)
    ensures n != m ==> Nth(n) != Nth(m)
  {
    AfterIsPosition(n);
    AfterIsPosition(m);
    if n % 49 == m % 49 && n / 49 == m / 49 {
      DivModInjective(n, m);
    }
  }

  /** A number is determined by its quotient and remainder by 49. */
  lemma DivModInjective(n: nat, m: nat)
    requires n % 49 == m % 49 && n / 49 == m / 49
    ensures n == m
  {
    assert n == 49 * (n / 49) + n % 49;
    assert m == 49 * (m / 49) + m % 49;
  }
}
