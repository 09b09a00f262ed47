/**
 * `ValueCache`: the two-tier intern table behind `ReadGroup`. A `confirmed`
 * table holds values kept for good; a `cache` table holds probation entries
 * with a generation counter. Both dictionaries are keyed by the stored value,
 * whose `Equals` and `GetHashCode` compare and hash its text, so each is
 * modelled as a map from the text to the entry.
 */
module ValueCaches {
  import opened Wrappers
  import opened ValueTypes
  import opened ValueObjects

  /** The probation table is swept once it holds more than this many entries. */
  const CacheLimit: nat := 10000

  /** `GenValue`: a probation entry and the number of times it was hit. */
  datatype GenValue = GenValue(generation: int, value: ValueObject)

  /** `Dictionary.Add`'s `ArgumentException` for a key that is already present. */
  datatype CacheError = DuplicateKey

  /**
   * The text a key finds in a dictionary: its range's text, or nothing for a
   * reversed range, whose negative `Length` equals no value.
   */
  function Probe(k: ValueKey): (r: Option<string>)
    reads k
    requires k.Valid()
    ensures r.Some? <==> k.st <= k.ed
    ensures r.Some? ==> r.value == k.Text()
  {
    if k.st <= k.ed then Some(k.Text()) else None
  }

  /** A probe finds exactly the values the key equals. */
  lemma ProbeFindsEqualValues(k: ValueKey, o: ValueObject)
    requires k.Valid()
    ensures k.Equals(ObjValue(o)) <==> Probe(k) == Some(o.chars)
    ensures k.Equals(ObjValue(o)) <==> o.Equals(ObjKey(k))
  {
  }

  /** The entries a sweep moves to `confirmed`: those hit at least once. */
  function Promoted(c: map<string, GenValue>): (m: map<string, ValueObject>)
    ensures m.Keys <= c.Keys
    ensures forall t :: t in m <==> t in c && c[t].generation > 0
    ensures forall t :: t in m ==> m[t] == c[t].value
  {
    map t | t in c && c[t].generation > 0 :: c[t].value
  }

  /** Every entry is stored under its own text. */
  ghost predicate KeyedByText(confirmed: map<string, ValueObject>, cache: map<string, GenValue>)
  {
    && (forall t :: t in confirmed ==> confirmed[t].chars == t)
    && (forall t :: t in cache ==> cache[t].value.chars == t)
  }

  /** No probation entry has been counted. */
  predicate GenerationsZero(cache: map<string, GenValue>)
  {
    forall t :: t in cache ==> cache[t].generation == 0
  }

  /** With every generation at 0 a sweep promotes nothing. */
  lemma NothingToPromote(cache: map<string, GenValue>)
    requires GenerationsZero(cache)
    ensures Promoted(cache) == map[]
  {
  }

  /** What the sweep has done after visiting the entries `done`. */
  ghost predicate SweepInv(f0: map<string, ValueObject>, c0: map<string, GenValue>,
                           done: set<string>, moved: map<string, ValueObject>)
  {
    && (forall t :: t in moved <==> t in f0 || (t in done && t in c0 && c0[t].generation > 0))
    && (forall t :: t in moved ==> t in f0 || t in c0)
    && (forall t :: t in moved ==> moved[t] == if t in f0 then f0[t] else c0[t].value)
    && (forall t :: t in done && t in c0 && c0[t].generation > 0 ==> t !in f0)
  }

  /** Visiting one more entry that does not clash keeps the sweep's invariant. */
  lemma SweepStep(f0: map<string, ValueObject>, c0: map<string, GenValue>,
                  done: set<string>, moved: map<string, ValueObject>, t: string)
    requires SweepInv(f0, c0, done, moved)
    requires t in c0 && t !in done
    requires c0[t].generation > 0 ==> t !in moved
    ensures SweepInv(f0, c0, done + {t}, if c0[t].generation > 0 then moved[t := c0[t].value] else moved)
  {
  }

  /** A clash on `Add` means a promoted entry's text was already confirmed. */
  lemma SweepClash(f0: map<string, ValueObject>, c0: map<string, GenValue>,
                   done: set<string>, moved: map<string, ValueObject>, t: string)
    requires SweepInv(f0, c0, done, moved)
    requires t in c0 && t !in done && c0[t].generation > 0 && t in moved
    ensures !(f0.Keys !! Promoted(c0).Keys)
  {
    assert t in f0 && t in Promoted(c0);
  }

  /** The table a completed sweep leaves. */
  lemma SweptTable(f0: map<string, ValueObject>, c0: map<string, GenValue>,
                   done: set<string>, moved: map<string, ValueObject>)
    requires SweepInv(f0, c0, done, moved) && done == c0.Keys
    ensures moved == f0 + Promoted(c0)
    ensures f0.Keys !! Promoted(c0).Keys
  {
  }

  /** Adding a value under its own text keeps the tables keyed by text and grows the probation table by one. */
  lemma Inserted(confirmed: map<string, ValueObject>, cache: map<string, GenValue>, v: ValueObject, g: int)
    requires KeyedByText(confirmed, cache) && v.chars !in cache
    ensures KeyedByText(confirmed, cache[v.chars := GenValue(g, v)])
    ensures |cache[v.chars := GenValue(g, v)]| == |cache| + 1
    ensures GenerationsZero(cache) && g == 0 ==> GenerationsZero(cache[v.chars := GenValue(g, v)])
  {
  }

  /**
   * The `foreach` of the sweep over the values: each entry hit at least once
   * is added to the confirmed table, and `Add` throws (`ok` false) on a text
   * already there; `moved` is the confirmed table it reached.
   */
  method PromoteAll(f0: map<string, ValueObject>, c0: map<string, GenValue>)
    returns (ok: bool, moved: map<string, ValueObject>)
    ensures ok <==> f0.Keys !! Promoted(c0).Keys
    ensures ok ==> moved == f0 + Promoted(c0)
  {
    moved := f0;
    var pending := c0.Keys;
    ghost var done: set<string> := {};
    while pending != {}
      invariant pending !! done && pending + done == c0.Keys
      invariant SweepInv(f0, c0, done, moved)
      decreases |pending|
    {
      var t :| t in pending;
      var c := c0[t];
      if c.generation > 0 && t in moved {
        SweepClash(f0, c0, done, moved, t);
        return false, moved;
      }
      SweepStep(f0, c0, done, moved, t);
      if c.generation > 0 {
        moved := moved[t := c.value];
      }
      pending := pending - {t};
      done := done + {t};
    }
    SweptTable(f0, c0, done, moved);
    ok := true;
  }

  class ValueCache {
    var confirmed: map<string, ValueObject>
    var cache: map<string, GenValue>

    /** The shape every call keeps: bounded probation table, entries under their own text. */
    ghost predicate Structural()
      reads this
    {
      |cache| <= CacheLimit && KeyedByText(confirmed, cache)
    }

    /** As written, in addition: no generation is ever stored above 0. */
    ghost predicate Valid()
      reads this
    {
      Structural() && GenerationsZero(cache)
    }

    constructor ()
      ensures confirmed == map[] && cache == map[]
      ensures Valid()
    {
      confirmed := map[];
      cache := map[];
    }

    /**
     * The sweep: every probation entry with a generation above 0 is added to
     * `confirmed` (which throws on a text already there), then the probation
     * table is cleared.
     */
    method Sweep() returns (ok: bool)
      modifies this
      ensures ok <==> old(confirmed).Keys !! Promoted(old(cache)).Keys
      ensures ok ==> confirmed == old(confirmed) + Promoted(old(cache)) && cache == map[]
    {
      var moved;
      ok, moved := PromoteAll(confirmed, cache);
      confirmed := moved;
      if ok {
        cache := map[];
      }
    }

    /**
     * `GetCache` as written: `confirmed` first, then `cache`, then a new
     * value copied from `buffer[st..ed)` and added with generation 0, with a
     * sweep once the probation table outgrows `CacheLimit`. The hit in
     * `cache` increments a copy of the entry, so nothing is ever promoted and
     * `confirmed` never changes.
     */
    method GetCache(key: ValueKey, buffer: seq<char>, st: int, ed: int) returns (r: Result<ValueObject, CacheError>)
      requires Valid() && key.Valid() && key.HashCurrent()
      requires key.chars == buffer && key.st == st && key.ed == ed
      modifies this
      ensures Valid()
      ensures confirmed == old(confirmed)
      ensures r.Success? ==> r.value.chars == Slice(buffer, st, ed)
      ensures Probe(key).Some? && Probe(key).value in old(confirmed) ==>
        r == Success(old(confirmed)[Probe(key).value]) && cache == old(cache)
      ensures Probe(key).Some? && Probe(key).value !in old(confirmed) && Probe(key).value in old(cache) ==>
        r == Success(old(cache)[Probe(key).value].value) && cache == old(cache)
      ensures (Probe(key).None? || (Probe(key).value !in old(confirmed) && Probe(key).value !in old(cache))) ==>
        if Slice(buffer, st, ed) in old(cache) then
          r == Failure(DuplicateKey) && cache == old(cache)
        else
          && r.Success? && fresh(r.value) && r.value.Valid()
          && cache == (if |old(cache)| + 1 > CacheLimit then map[]
                       else old(cache)[Slice(buffer, st, ed) := GenValue(0, r.value)])
    {
      var probe := if st <= ed then Some(key.Text()) else None;
      assert probe == Probe(key);
      if probe.Some? && probe.value in confirmed {
        r := Success(confirmed[probe.value]);
      } else if probe.Some? && probe.value in cache {
        var pair := cache[probe.value];
        pair := pair.(generation := pair.generation + 1);
        r := Success(pair.value);
      } else {
        r := Add(buffer, st, ed);
      }
    }

    /**
     * The miss path of `GetCache`: a new value copied from the range, added
     * with generation 0; past `CacheLimit` entries the sweep finds nothing to
     * promote and only clears the probation table.
     */
    method Add(buffer: seq<char>, st: int, ed: int) returns (r: Result<ValueObject, CacheError>)
      requires Valid()
      requires ed > st ==> 0 <= st && ed <= |buffer|
      modifies this
      ensures Valid() && confirmed == old(confirmed)
      ensures r.Success? ==> r.value.chars == Slice(buffer, st, ed)
      ensures if Slice(buffer, st, ed) in old(cache) then
          r == Failure(DuplicateKey) && cache == old(cache)
        else
          && r.Success? && fresh(r.value) && r.value.Valid()
          && cache == (if |old(cache)| + 1 > CacheLimit then map[]
                       else old(cache)[Slice(buffer, st, ed) := GenValue(0, r.value)])
    {
      var result := new ValueObject.FromSpan(buffer, st, ed);
      if result.chars in cache {
        return Failure(DuplicateKey);
      }
      Inserted(confirmed, cache, result, 0);
      cache := cache[result.chars := GenValue(0, result)];
      if |cache| > CacheLimit {
        NothingToPromote(cache);
        ghost var kept := confirmed;
        assert kept + Promoted(cache) == kept;
        var ok := Sweep();
        assert confirmed == kept && cache == map[];
      }
      r := Success(result);
    }

    /**
     * `GetCache` with the generation written back into the table, which is
     * what the sweep evidently counts on: a hit in `cache` stores the
     * incremented entry, so every entry hit at least once before a sweep is
     * moved to `confirmed` by it.
     */
    method GetCacheCounting(key: ValueKey, buffer: seq<char>, st: int, ed: int) returns (r: Result<ValueObject, CacheError>)
      requires Structural() && key.Valid() && key.HashCurrent()
      requires key.chars == buffer && key.st == st && key.ed == ed
      modifies this
      ensures r.Success? ==> Structural() && r.value.chars == Slice(buffer, st, ed)
      ensures Probe(key).Some? && Probe(key).value in old(confirmed) ==>
        r == Success(old(confirmed)[Probe(key).value]) && cache == old(cache) && confirmed == old(confirmed)
      ensures Probe(key).Some? && Probe(key).value !in old(confirmed) && Probe(key).value in old(cache) ==>
        var t := Probe(key).value;
        && r == Success(old(cache)[t].value) && confirmed == old(confirmed)
        && cache == old(cache)[t := old(cache)[t].(generation := old(cache)[t].generation + 1)]
      ensures (Probe(key).None? || (Probe(key).value !in old(confirmed) && Probe(key).value !in old(cache))) &&
              Slice(buffer, st, ed) !in old(cache) && r.Success? ==>
        var grown := old(cache)[Slice(buffer, st, ed) := GenValue(0, r.value)];
        if |grown| > CacheLimit then
          confirmed == old(confirmed) + Promoted(grown) && cache == map[]
        else
          confirmed == old(confirmed) && cache == grown
    {
      if st <= ed && key.Text() in confirmed {
        r := Success(confirmed[key.Text()]);
      } else if st <= ed && key.Text() in cache {
        var t := key.Text();
        var pair := cache[t];
        pair := pair.(generation := pair.generation + 1);
        cache := cache[t := pair];
        r := Success(pair.value);
      } else {
        r := AddCounting(buffer, st, ed);
      }
    }

    /** The miss path of `GetCacheCounting`: create, add with generation 0, sweep past the limit. */
    method AddCounting(buffer: seq<char>, st: int, ed: int) returns (r: Result<ValueObject, CacheError>)
      requires Structural()
      requires ed > st ==> 0 <= st && ed <= |buffer|
      modifies this
      ensures r.Success? ==> Structural() && r.value.chars == Slice(buffer, st, ed)
      ensures Slice(buffer, st, ed) in old(cache) ==> r == Failure(DuplicateKey) && cache == old(cache)
      ensures Slice(buffer, st, ed) !in old(cache) && r.Success? ==>
        var grown := old(cache)[Slice(buffer, st, ed) := GenValue(0, r.value)];
        if |grown| > CacheLimit then
          confirmed == old(confirmed) + Promoted(grown) && cache == map[]
        else
          confirmed == old(confirmed) && cache == grown
    {
      var result := new ValueObject.FromSpan(buffer, st, ed);
      if result.chars in cache {
        return Failure(DuplicateKey);
      }
      Inserted(confirmed, cache, result, 0);
      cache := cache[result.chars := GenValue(0, result)];
      if |cache| > CacheLimit {
        var ok := Sweep();
        if !ok {
          return Failure(DuplicateKey);
        }
      }
      r := Success(result);
    }
  }

  /**
   * With the counting version, an entry that was hit before the sweep is
   * found in `confirmed` afterwards, holding the same instance.
   */
  lemma HitEntriesArePromoted(confirmed: map<string, ValueObject>, cache: map<string, GenValue>, t: string)
    requires t in cache && cache[t].generation > 0
    requires confirmed.Keys !! Promoted(cache).Keys
    ensures t in confirmed + Promoted(cache)
    ensures (confirmed + Promoted(cache))[t] == cache[t].value
  {
  }
}
