/**
 * ResultsTab.java: the finding store. An ordered finding list, the set of
 * unique keys seen, the table rows shown to the user, and the persisted copy
 * of the list in the project's extension data.
 */
module Results {
  import opened Wrappers
  import opened Findings
  import opened Persistence
  import opened Seqs

  /** A row of the results table: Type, Finding, Rule Name, Source URL. */
  datatype ResultRow = ResultRow(ftype: string, finding: JString, ruleName: string, url: string)

  function ResultRowOf(f: Finding): ResultRow
  {
    ResultRow(f.ftype, f.finding, f.ruleName, f.url)
  }

  /** The table rows that mirror a finding list, one per finding, in order. */
  function RowsOf(fs: seq<Finding>): (rows: seq<ResultRow>)
    ensures |rows| == |fs|
  {
    seq(|fs|, i requires 0 <= i < |fs| => ResultRowOf(fs[i]))
  }

  /** The unique keys of a finding list, in list order. */
  function KeysOf(fs: seq<Finding>): (ks: seq<string>)
    ensures |ks| == |fs|
  {
    if fs == [] then [] else KeysOf(fs[..|fs| - 1]) + [UniqueKey(fs[|fs| - 1])]
  }

  /** The set of unique keys of a finding list. */
  function KeySet(fs: seq<Finding>): set<string>
  {
    set k | k in KeysOf(fs)
  }

  /** No two elements of the sequence are equal. */
  predicate Distinct(ks: seq<string>)
  {
    forall i, j :: 0 <= i < j < |ks| ==> ks[i] != ks[j]
  }

  /** No two findings of the list share a unique key. */
  predicate DistinctKeys(fs: seq<Finding>)
  {
    Distinct(KeysOf(fs))
  }

  lemma {:induction false} KeysOfAppend(a: seq<Finding>, b: seq<Finding>)
    ensures KeysOf(a + b) == KeysOf(a) + KeysOf(b)
  {
    if b != [] {
      var b' := b[..|b| - 1];
      assert (a + b)[..|a + b| - 1] == a + b';
      KeysOfAppend(a, b');
    } else {
      assert a + b == a;
    }
  }

  lemma KeysOfSnoc(fs: seq<Finding>, f: Finding)
    ensures KeysOf(fs + [f]) == KeysOf(fs) + [UniqueKey(f)]
  {
    assert (fs + [f])[..|fs|] == fs;
  }

  lemma KeySetAppend(a: seq<Finding>, b: seq<Finding>)
    ensures KeySet(a + b) == KeySet(a) + KeySet(b)
  {
    KeysOfAppend(a, b);
  }

  /** Insert-if-key-absent on the list: a duplicate key leaves it as it was, a new one is appended. */
  function Insert(fs: seq<Finding>, f: Finding): (r: seq<Finding>)
    ensures |fs| <= |r| <= |fs| + 1
    ensures |r| == |fs| ==> r == fs
  {
    if UniqueKey(f) in KeySet(fs) then fs else fs + [f]
  }

  /** Inserting adds the finding's key to the key set and keeps the keys distinct. */
  lemma InsertKeys(fs: seq<Finding>, f: Finding)
    ensures KeySet(Insert(fs, f)) == KeySet(fs) + {UniqueKey(f)}
    ensures DistinctKeys(fs) ==> DistinctKeys(Insert(fs, f))
  {
    KeysOfSnoc(fs, f);
  }

  /** Inserting a sequence of findings one after the other, in order. */
  function InsertAll(fs: seq<Finding>, xs: seq<Finding>): (r: seq<Finding>)
    ensures |fs| <= |r|
    ensures |r| == |fs| ==> r == fs
  {
    if xs == [] then fs
    else Insert(InsertAll(fs, xs[..|xs| - 1]), xs[|xs| - 1])
  }

  /** After inserting, the keys are the old keys plus the inserted ones, and they stay distinct. */
  lemma {:induction false} InsertAllKeys(fs: seq<Finding>, xs: seq<Finding>)
    ensures KeySet(InsertAll(fs, xs)) == KeySet(fs) + KeySet(xs)
    ensures DistinctKeys(fs) ==> DistinctKeys(InsertAll(fs, xs))
  {
    if xs != [] {
      var init, x := xs[..|xs| - 1], xs[|xs| - 1];
      assert xs == init + [x];
      KeysOfSnoc(init, x);
      InsertAllKeys(fs, init);
      InsertKeys(InsertAll(fs, init), x);
    }
  }

  /**
   * Reference definition of defensive deduplication: walk the list from the
   * front and keep a finding exactly when its key has not been seen before.
   */
  function KeepFirst(xs: seq<Finding>, seen: set<string>): (r: seq<Finding>)
    ensures forall f :: f in r ==> f in xs
    ensures KeySet(r) !! seen
  {
    if xs == [] then []
    else if UniqueKey(xs[0]) in seen then KeepFirst(xs[1..], seen)
    else
      var rest := KeepFirst(xs[1..], seen + {UniqueKey(xs[0])});
      KeysOfAppend([xs[0]], rest);
      KeysOfSnoc([], xs[0]);
      [xs[0]] + rest
  }

  /** Inserting a list in two parts is inserting the whole list. */
  lemma {:induction false} InsertAllAppend(fs: seq<Finding>, a: seq<Finding>, b: seq<Finding>)
    ensures InsertAll(fs, a + b) == InsertAll(InsertAll(fs, a), b)
  {
    if b == [] {
      assert a + b == a;
    } else {
      var b' := b[..|b| - 1];
      assert (a + b)[..|a + b| - 1] == a + b';
      assert (a + b)[|a + b| - 1] == b[|b| - 1];
      InsertAllAppend(fs, a, b');
    }
  }

  /** One more element at the back of KeepFirst's input adds it iff its key is still new. */
  lemma {:induction false} KeepFirstSnoc(xs: seq<Finding>, x: Finding, seen: set<string>)
    ensures KeepFirst(xs + [x], seen) ==
            KeepFirst(xs, seen) + (if UniqueKey(x) in seen + KeySet(xs) then [] else [x])
  {
    if xs == [] {
      assert [x][1..] == [];
    } else {
      var h, t := xs[0], xs[1..];
      var tail := if UniqueKey(x) in seen + KeySet(xs) then [] else [x];
      assert (xs + [x])[0] == h && (xs + [x])[1..] == t + [x];
      assert xs == [h] + t;
      KeySetCons(h, t);
      if UniqueKey(h) in seen {
        KeepFirstSnoc(t, x, seen);
        assert seen + KeySet(t) == seen + KeySet(xs);
      } else {
        var seen' := seen + {UniqueKey(h)};
        KeepFirstSnoc(t, x, seen');
        assert seen' + KeySet(t) == seen + KeySet(xs);
        ConcatAssoc([h], KeepFirst(t, seen'), tail);
      }
    }
  }

  lemma KeySetCons(h: Finding, t: seq<Finding>)
    ensures KeySet([h] + t) == {UniqueKey(h)} + KeySet(t)
  {
    KeySetAppend([h], t);
    KeysOfSnoc([], h);
  }

  /**
   * Loading a list into the store is the same as appending the findings whose
   * key is new to both the store and the part of the list before them.
   */
  lemma {:induction false} InsertAllIsKeepFirst(fs: seq<Finding>, xs: seq<Finding>)
    ensures InsertAll(fs, xs) == fs + KeepFirst(xs, KeySet(fs))
  {
    if xs != [] {
      var init, x := xs[..|xs| - 1], xs[|xs| - 1];
      assert xs == init + [x];
      InsertAllIsKeepFirst(fs, init);
      InsertAllKeys(fs, init);
      KeepFirstSnoc(init, x, KeySet(fs));
    }
  }

  /** Findings whose keys are all present already change nothing. */
  lemma {:induction false} InsertAllAbsorbs(g: seq<Finding>, xs: seq<Finding>)
    requires KeySet(xs) <= KeySet(g)
    ensures InsertAll(g, xs) == g
  {
    if xs != [] {
      var init, x := xs[..|xs| - 1], xs[|xs| - 1];
      assert xs == init + [x];
      KeySetAppend(init, [x]);
      KeysOfSnoc([], x);
      InsertAllAbsorbs(g, init);
    }
  }

  /** Delivering the same findings a second time adds nothing. */
  lemma InsertAllIdempotent(fs: seq<Finding>, xs: seq<Finding>)
    ensures InsertAll(InsertAll(fs, xs), xs) == InsertAll(fs, xs)
  {
    InsertAllKeys(fs, xs);
    InsertAllAbsorbs(InsertAll(fs, xs), xs);
  }

  /** A list without duplicate keys loads as itself. */
  lemma {:induction false} InsertAllOfDistinct(fs: seq<Finding>, xs: seq<Finding>)
    requires DistinctKeys(fs + xs)
    ensures InsertAll(fs, xs) == fs + xs
  {
    if xs != [] {
      var init, x := xs[..|xs| - 1], xs[|xs| - 1];
      assert fs + xs == (fs + init) + [x];
      KeysOfSnoc(fs + init, x);
      DistinctSnoc(KeysOf(fs + init), UniqueKey(x));
      InsertAllOfDistinct(fs, init);
    }
  }

  lemma DistinctSnoc(ks: seq<string>, k: string)
    requires Distinct(ks + [k])
    ensures Distinct(ks) && k !in ks
  {
    forall i | 0 <= i < |ks|
      ensures ks[i] == (ks + [k])[i] != k
    {
      assert (ks + [k])[|ks|] == k;
    }
  }

  /** A sequence without repetitions has as many distinct elements as positions. */
  lemma {:induction false} DistinctCount(ks: seq<string>)
    requires Distinct(ks)
    ensures |set k | k in ks| == |ks|
  {
    if ks != [] {
      var init, k := ks[..|ks| - 1], ks[|ks| - 1];
      assert ks == init + [k];
      assert (set x | x in ks) == (set x | x in init) + {k};
      assert k !in init;
      DistinctCount(init);
    }
  }

  /** A list with distinct keys has as many keys as elements. */
  lemma DistinctKeyCount(fs: seq<Finding>)
    requires DistinctKeys(fs)
    ensures |KeySet(fs)| == |fs|
  {
    DistinctCount(KeysOf(fs));
  }

  /** Loading into an empty store yields one finding per distinct key of the persisted list. */
  lemma LoadedCount(xs: seq<Finding>)
    ensures |InsertAll([], xs)| == |KeySet(xs)|
  {
    var r := InsertAll([], xs);
    InsertAllKeys([], xs);
    DistinctKeyCount(r);
  }

  /**
   * The store `s` is what saving on every growth of the list from `f0` to `f`
   * leaves behind: `s0` while the list has not grown, and `s0` holding the
   * encoding of `f` once it has.
   */
  predicate Saved(f0: seq<Finding>, s0: Store, f: seq<Finding>, s: Store, encode: seq<Finding> -> string)
  {
    s == if |f| == |f0| then s0 else s0[FindingsKey := encode(f)]
  }

  /** Two stretches of saving compose into one. */
  lemma SavedTrans(f0: seq<Finding>, s0: Store, f1: seq<Finding>, s1: Store, f2: seq<Finding>, s2: Store,
                   encode: seq<Finding> -> string)
    requires |f0| <= |f1| <= |f2|
    requires |f1| == |f2| ==> f1 == f2
    requires Saved(f0, s0, f1, s1, encode) && Saved(f1, s1, f2, s2, encode)
    ensures Saved(f0, s0, f2, s2, encode)
  {
  }

  /** What `loadFindings` gets from the store: the list to insert, or the exception it throws. */
  function StoredFindings(store: Store, decode: string -> Decoded<seq<Finding>>): (r: Result<seq<Finding>, LoadFailure>)
    ensures r.Err? <==> !Blank(store, FindingsKey) && decode(store[FindingsKey]).Malformed?
    ensures r.Ok? && r.value != [] ==> !Blank(store, FindingsKey) && decode(store[FindingsKey]) == Parsed(r.value)
    ensures !Blank(store, FindingsKey) && decode(store[FindingsKey]).Parsed? ==> r == Ok(decode(store[FindingsKey]).value)
    ensures Blank(store, FindingsKey) || decode(store[FindingsKey]).JsonNull? ==> r == Ok([])
  {
    if Blank(store, FindingsKey) then Ok([])
    else match decode(store[FindingsKey])
      case Parsed(xs) => Ok(xs)
      case JsonNull => Ok([])
      case Malformed => Err(SyntaxError)
  }

  /** The results tab's state. */
  class ResultsTab {
    var findings: seq<Finding>
    var keys: set<string>
    var rows: seq<ResultRow>
    var store: Store
    const encode: seq<Finding> -> string
    const decode: string -> Decoded<seq<Finding>>

    /** The keys of the list are distinct and are the key set; the table mirrors the list. */
    ghost predicate Valid()
      reads this
    {
      DistinctKeys(findings) && keys == KeySet(findings) && rows == RowsOf(findings)
    }

    /**
     * The constructor, which ends by loading the persisted findings. A
     * persisted string that Gson cannot parse makes the constructor throw.
     */
    constructor (data: Store, encode: seq<Finding> -> string, decode: string -> Decoded<seq<Finding>>)
      requires StoredFindings(data, decode).Ok?
      ensures Valid() && store == data && this.encode == encode && this.decode == decode
      ensures findings == KeepFirst(StoredFindings(data, decode).value, {})
    {
      findings, keys, rows := [], {}, [];
      store := data;
      this.encode, this.decode := encode, decode;
      new;
      var _ := LoadFindings();
      InsertAllIsKeepFirst([], StoredFindings(data, decode).value);
    }

    /** `addFinding`: build the finding, and keep it iff its key is new. */
    method AddFinding(ftype: string, finding: JString, ruleName: string, url: string,
                      exchange: Exchange, start: int, end: int) returns (inserted: bool)
      requires Valid()
      modifies this
      ensures Valid()
      ensures var f := NewFinding(ftype, finding, ruleName, url, exchange, start, end);
              && inserted == (UniqueKey(f) !in old(keys))
              && findings == Insert(old(findings), f)
              && (inserted ==> findings == old(findings) + [f]
                               && rows == old(rows) + [ResultRow(ftype, finding, ruleName, url)]
                               && store == old(store)[FindingsKey := encode(findings)])
              && (!inserted ==> findings == old(findings) && keys == old(keys)
                                && rows == old(rows) && store == old(store))
    {
      var f := NewFinding(ftype, finding, ruleName, url, exchange, start, end);
      inserted := Remember(f);
      if inserted {
        SaveFindings();
      }
    }

    /**
     * The step shared by `addFinding` and the loop of `loadFindings`: add the
     * key to the set and, when it was absent, append the finding and its row.
     */
    method Remember(f: Finding) returns (inserted: bool)
      requires Valid()
      modifies this`findings, this`keys, this`rows
      ensures Valid()
      ensures inserted == (UniqueKey(f) !in old(keys))
      ensures findings == Insert(old(findings), f)
      ensures inserted ==> rows == old(rows) + [ResultRowOf(f)] && keys == old(keys) + {UniqueKey(f)}
      ensures !inserted ==> findings == old(findings) && keys == old(keys) && rows == old(rows)
    {
      var k := UniqueKey(f);
      InsertKeys(findings, f);
      inserted := k !in keys;
      if inserted {
        keys := keys + {k};
        findings := findings + [f];
        rows := rows + [ResultRowOf(f)];
        assert rows == RowsOf(findings);
      }
    }

    /** `clearResults`: empty the table, the list and the key set, and delete the persisted copy. */
    method ClearResults()
      requires Valid()
      modifies this
      ensures Valid()
      ensures findings == [] && keys == {} && rows == []
      ensures store == old(store) - {FindingsKey}
    {
      rows := [];
      findings := [];
      keys := {};
      store := store - {FindingsKey};
    }

    /** `saveFindings`: persist the encoding of the whole current list. */
    method SaveFindings()
      modifies this`store
      ensures store == old(store)[FindingsKey := encode(findings)]
    {
      store := store[FindingsKey := encode(findings)];
    }

    /**
     * `loadFindings`: insert the persisted findings in order, skipping any
     * whose key is already present. `ok` is false when Gson throws.
     */
    method LoadFindings() returns (ok: bool)
      requires Valid()
      modifies this`findings, this`keys, this`rows
      ensures Valid()
      ensures ok == StoredFindings(store, decode).Ok?
      ensures findings == if ok then InsertAll(old(findings), StoredFindings(store, decode).value)
                          else old(findings)
      ensures Blank(store, FindingsKey) || decode(store[FindingsKey]) == JsonNull ==> findings == old(findings)
    {
      if Blank(store, FindingsKey) {
        return true;
      }
      var decoded := decode(store[FindingsKey]);
      if decoded.Malformed? {
        return false;
      }
      if decoded.JsonNull? {
        return true;
      }
      var loaded := decoded.value;
      assert StoredFindings(store, decode) == Ok(loaded);
      for i := 0 to |loaded|
        invariant Valid()
        invariant findings == InsertAll(old(findings), loaded[..i])
      {
        assert loaded[..i + 1][..i] == loaded[..i];
        var _ := Remember(loaded[i]);
      }
      assert loaded[..|loaded|] == loaded;
      return true;
    }
  }
}
