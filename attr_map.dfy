/**
 * The insertion-ordered attribute map of an SVG element: a JavaScript `Map`
 * from attribute names to values, kept here as a sequence of entries in
 * insertion order. `Has`, `Get`, `Put` and `Delete` follow `Map.prototype.has`,
 * `get`, `set` and `delete`; the lemmas relate the bulk operations of
 * `GenericElement` to simple filters over the entries.
 */
module AttrMap {
  import opened Wrappers
  import opened Sequences

  /** An attribute value: the source stores strings and numbers. */
  datatype Value = Str(s: string) | Num(n: int)

  type Entry = (string, Value)
  type Attrs = seq<Entry>

  /** The attribute names, in insertion order. */
  function Keys(a: Attrs): seq<string>
  {
    seq(|a|, i requires 0 <= i < |a| => a[i].0)
  }

  /** The invariant of a `Map`: no name occurs twice. */
  ghost predicate UniqueKeys(a: Attrs)
  {
    Distinct(Keys(a))
  }

  predicate Has(a: Attrs, k: string)
  {
    k in Keys(a)
  }

  function Get(a: Attrs, k: string): Option<Value>
  {
    if a == [] then None
    else if a[0].0 == k then Some(a[0].1)
    else Get(a[1..], k)
  }

  /** `Map.set`: a present name keeps its place and takes the new value; an absent one is appended. */
  function Put(a: Attrs, k: string, v: Value): (r: Attrs)
    ensures Has(a, k) ==> Keys(r) == Keys(a)
    ensures !Has(a, k) ==> r == a + [(k, v)]
    ensures forall k' :: Get(r, k') == if k' == k then Some(v) else Get(a, k')
  {
    if a == [] then [(k, v)]
    else
      KeysCons(a);
      if a[0].0 == k then [(k, v)] + a[1..]
      else
        var rest := Put(a[1..], k, v);
        KeysCons([a[0]] + rest);
        [a[0]] + rest
  }

  /** Where the entry named `k` stands: the first entry with that name. */
  function Position(a: Attrs, k: string): (p: nat)
    requires Has(a, k)
    ensures p < |a| && a[p].0 == k
    ensures forall i :: 0 <= i < p ==> a[i].0 != k
  {
    KeysCons(a);
    if a[0].0 == k then 0 else 1 + Position(a[1..], k)
  }

  /** `Map.delete`: the entry named `k`, if any, is cut out and the others keep their order. */
  function Delete(a: Attrs, k: string): (r: Attrs)
    ensures !Has(a, k) ==> r == a
    ensures forall k' :: k' != k ==> Get(r, k') == Get(a, k')
  {
    if a == [] then []
    else
      KeysCons(a);
      if a[0].0 == k then a[1..]
      else
        var rest := Delete(a[1..], k);
        assert ([a[0]] + rest)[1..] == rest;
        [a[0]] + rest
  }

  /** The first entry named `k`, at `p`, is cut out; the entries before and after it stay in order. */
  lemma {:induction false} DeleteCut(a: Attrs, k: string, p: nat)
    requires p < |a| && a[p].0 == k
    requires forall i :: 0 <= i < p ==> a[i].0 != k
    ensures Delete(a, k) == a[..p] + a[p + 1..]
  {
    if p > 0 {
      var t := a[1..];
      DeleteCut(t, k, p - 1);
      assert Delete(a, k) == [a[0]] + Delete(t, k);
      assert a[..p] == [a[0]] + t[..p - 1];
      assert a[p + 1..] == t[p..];
    }
  }

  /** Adding `(k, v)` only when `k` is absent: the body of `addAttr`. */
  function AddIfAbsent(a: Attrs, k: string, v: Value): Attrs
  {
    if Has(a, k) then a else Put(a, k, v)
  }

  /** The entries left after applying `AddIfAbsent` to `entries` in order (the fold of `addAttrs`). */
  function AddAll(a: Attrs, entries: Attrs): Attrs
  {
    if entries == [] then a
    else
      var n := |entries| - 1;
      AddIfAbsent(AddAll(a, entries[..n]), entries[n].0, entries[n].1)
  }

  /** The entries left after applying `Delete` to each name in turn (the fold of `removeAttrs`). */
  function DeleteAll(a: Attrs, names: seq<string>): Attrs
  {
    if names == [] then a
    else
      var n := |names| - 1;
      Delete(DeleteAll(a, names[..n]), names[n])
  }

  /** Reference definition: the entries of `entries` whose name is not yet in `a`. */
  function Fresh(a: Attrs, entries: Attrs): Attrs
  {
    if entries == [] then []
    else
      var n := |entries| - 1;
      Fresh(a, entries[..n]) + if Has(a, entries[n].0) then [] else [entries[n]]
  }

  /** Reference definition: the entries of `a` whose name is not listed in `names`. */
  function Keep(a: Attrs, names: seq<string>): Attrs
  {
    if a == [] then []
    else (if a[0].0 in names then [] else [a[0]]) + Keep(a[1..], names)
  }

  /** The number of entries of `a` whose name is listed in `names`. */
  function Hits(a: Attrs, names: seq<string>): nat
  {
    if a == [] then 0
    else (if a[0].0 in names then 1 else 0) + Hits(a[1..], names)
  }

  lemma KeysAppend(a: Attrs, b: Attrs)
    ensures Keys(a + b) == Keys(a) + Keys(b)
  {
  }

  lemma KeysCons(a: Attrs)
    requires a != []
    ensures Keys(a) == [a[0].0] + Keys(a[1..])
  {
  }

  lemma KeysSlice(a: Attrs, i: nat, j: nat)
    requires i <= j <= |a|
    ensures Keys(a[i..j]) == Keys(a)[i..j]
  {
  }

  /** Over unique names, the first name does not occur again and the rest stay unique. */
  lemma HeadAbsent(a: Attrs)
    requires UniqueKeys(a) && a != []
    ensures !Has(a[1..], a[0].0) && UniqueKeys(a[1..])
  {
    KeysSlice(a, 1, |a|);
    DistinctCut(Keys(a), 0);
    assert Keys(a)[..0] + Keys(a)[1..] == Keys(a[1..]);
  }

  /** Appending never hides a name that is already present. */
  lemma {:induction false} GetPrefix(b: Attrs, c: Attrs, k: string)
    requires Has(b, k)
    ensures Get(b + c, k) == Get(b, k)
  {
    KeysCons(b);
    assert (b + c)[0] == b[0];
    if b[0].0 != k {
      assert (b + c)[1..] == b[1..] + c;
      GetPrefix(b[1..], c, k);
    }
  }

  /** Adding a name that is absent keeps the names unique. */
  lemma AppendUnique(a: Attrs, k: string, v: Value)
    requires UniqueKeys(a) && !Has(a, k)
    ensures UniqueKeys(a + [(k, v)])
  {
    KeysAppend(a, [(k, v)]);
  }

  /** `Put` keeps the names unique. */
  lemma PutUnique(a: Attrs, k: string, v: Value)
    requires UniqueKeys(a)
    ensures UniqueKeys(Put(a, k, v))
  {
    if !Has(a, k) {
      AppendUnique(a, k, v);
    }
  }

  /** `Delete` keeps the names unique, removes `k` altogether and shortens the map by one exactly when `k` was present. */
  lemma {:induction false} DeleteUnique(a: Attrs, k: string)
    requires UniqueKeys(a)
    ensures UniqueKeys(Delete(a, k))
    ensures !Has(Delete(a, k), k)
    ensures |Delete(a, k)| == |a| - if Has(a, k) then 1 else 0
  {
    if Has(a, k) {
      var p := Position(a, k);
      var r := Delete(a, k);
      DeleteCut(a, k, p);
      assert Keys(r) == Keys(a)[..p] + Keys(a)[p + 1..] by {
        KeysAppend(a[..p], a[p + 1..]);
        KeysSlice(a, 0, p);
        KeysSlice(a, p + 1, |a|);
      }
      DistinctCut(Keys(a), p);
      assert Keys(a)[p] == k;
    }
  }

  /** Over a map with unique names, `Delete` removes every entry named `k` and keeps the order of the rest. */
  lemma {:induction false} DeleteIsFilter(a: Attrs, k: string)
    requires UniqueKeys(a)
    ensures Delete(a, k) == Keep(a, [k])
  {
    if a != [] {
      HeadAbsent(a);
      if a[0].0 == k {
        KeepAbsent(a[1..], [k]);
      } else {
        DeleteIsFilter(a[1..], k);
      }
    }
  }

  lemma {:induction false} KeepAbsent(a: Attrs, names: seq<string>)
    requires forall n :: n in names ==> !Has(a, n)
    ensures Keep(a, names) == a
  {
    if a != [] {
      assert Keys(a) == [a[0].0] + Keys(a[1..]);
      KeepAbsent(a[1..], names);
    }
  }

  lemma {:induction false} KeepKeep(a: Attrs, names: seq<string>, k: string)
    ensures Keep(Keep(a, names), [k]) == Keep(a, names + [k])
  {
    if a != [] {
      KeepKeep(a[1..], names, k);
      var head := if a[0].0 in names then [] else [a[0]];
      KeepAppend(head, Keep(a[1..], names), [k]);
    }
  }

  lemma {:induction false} KeepAppend(a: Attrs, b: Attrs, names: seq<string>)
    ensures Keep(a + b, names) == Keep(a, names) + Keep(b, names)
  {
    if a == [] {
      assert a + b == b;
    } else {
      assert (a + b)[0] == a[0];
      assert (a + b)[1..] == a[1..] + b;
      KeepAppend(a[1..], b, names);
    }
  }

  /**
   * `removeAttrs` as a whole: over unique names, deleting the names one by one
   * leaves exactly the entries whose name is not listed, in their old order.
   */
  lemma {:induction false} DeleteAllIsKeep(a: Attrs, names: seq<string>)
    requires UniqueKeys(a)
    ensures DeleteAll(a, names) == Keep(a, names)
    ensures UniqueKeys(DeleteAll(a, names))
  {
    if names == [] {
      KeepAbsent(a, names);
    } else {
      var n := |names| - 1;
      DeleteAllIsKeep(a, names[..n]);
      DeleteUnique(DeleteAll(a, names[..n]), names[n]);
      DeleteIsFilter(DeleteAll(a, names[..n]), names[n]);
      KeepKeep(a, names[..n], names[n]);
      assert names[..n] + [names[n]] == names;
    }
  }

  /** When the listed names are exactly those of a suffix, `Keep` leaves the prefix before it. */
  lemma {:induction false} KeepSplit(a: Attrs, names: seq<string>, p: nat)
    requires p <= |a|
    requires forall i :: 0 <= i < p ==> a[i].0 !in names
    requires forall i :: p <= i < |a| ==> a[i].0 in names
    ensures Keep(a, names) == a[..p]
  {
    if a != [] {
      KeepSplit(a[1..], names, if p == 0 then 0 else p - 1);
      if p > 0 {
        assert a[..p] == [a[0]] + a[1..][..p - 1];
      }
    }
  }

  /** When no added name is present, every entry is fresh. */
  lemma {:induction false} FreshAbsent(a: Attrs, entries: Attrs)
    requires forall i :: 0 <= i < |entries| ==> !Has(a, entries[i].0)
    ensures Fresh(a, entries) == entries
  {
    if entries != [] {
      var n := |entries| - 1;
      FreshAbsent(a, entries[..n]);
      assert entries[..n] + [entries[n]] == entries;
    }
  }

  /** No listed name is left by `Keep`. */
  lemma {:induction false} KeepDrops(a: Attrs, names: seq<string>)
    ensures forall n :: n in names ==> !Has(Keep(a, names), n)
  {
    if a != [] {
      KeepDrops(a[1..], names);
      var head := if a[0].0 in names then [] else [a[0]];
      KeysAppend(head, Keep(a[1..], names));
    }
  }

  /** The number of entries `Keep` drops is the number of entries whose name is listed. */
  lemma {:induction false} KeepLength(a: Attrs, names: seq<string>)
    ensures |Keep(a, names)| + Hits(a, names) == |a|
  {
    if a != [] {
      KeepLength(a[1..], names);
    }
  }

  /**
   * Over unique names, the entries hit by `names` are as many as the distinct
   * listed names that are present: repeated and unknown names add nothing.
   */
  lemma {:induction false} HitsArePresentNames(a: Attrs, names: seq<string>)
    requires UniqueKeys(a)
    ensures Hits(a, names) == |set n | n in names && Has(a, n)|
  {
    if a == [] {
      assert (set n | n in names && Has(a, n)) == {};
    } else {
      KeysCons(a);
      HeadAbsent(a);
      HitsArePresentNames(a[1..], names);
      var rest := set n | n in names && Has(a[1..], n);
      var all := set n | n in names && Has(a, n);
      if a[0].0 in names {
        assert all == rest + {a[0].0};
      } else {
        assert all == rest;
      }
    }
  }

  /**
   * What `removeAttrs` promises, over unique names: the survivors are the
   * unlisted entries in their old order, no listed name is left, and the map
   * shrinks by the number of distinct listed names that were present.
   */
  lemma RemovalSummary(a: Attrs, names: seq<string>)
    requires UniqueKeys(a)
    ensures DeleteAll(a, names) == Keep(a, names)
    ensures forall n :: n in names ==> !Has(DeleteAll(a, names), n)
    ensures |a| - |DeleteAll(a, names)| == |set n | n in names && Has(a, n)|
  {
    DeleteAllIsKeep(a, names);
    KeepLength(a, names);
    HitsArePresentNames(a, names);
    KeepDrops(a, names);
  }

  /**
   * `addAttrs` as a whole: when the added entries have unique names (as the
   * properties of a JavaScript object do), the result is the old map followed
   * by the entries whose name was absent, in their order; nothing old changes.
   */
  lemma {:induction false} AddAllIsAppendFresh(a: Attrs, entries: Attrs)
    requires UniqueKeys(a) && UniqueKeys(entries)
    ensures AddAll(a, entries) == a + Fresh(a, entries)
    ensures UniqueKeys(AddAll(a, entries))
  {
    if entries != [] {
      var n := |entries| - 1;
      var init := entries[..n];
      assert Keys(init) == Keys(entries)[..n];
      AddAllIsAppendFresh(a, init);
      var b := AddAll(a, init);
      var (k, v) := entries[n];
      if !Has(a, k) {
        assert !Has(b, k) by {
          FreshKeys(a, init);
          KeysAppend(a, Fresh(a, init));
          assert Keys(entries)[n] !in Keys(init);
        }
        AppendUnique(b, k, v);
      }
      else {
        KeysAppend(a, Fresh(a, init));
      }
    }
  }

  lemma {:induction false} FreshKeys(a: Attrs, entries: Attrs)
    ensures forall k :: k in Keys(Fresh(a, entries)) ==> k in Keys(entries)
  {
    if entries != [] {
      var n := |entries| - 1;
      FreshKeys(a, entries[..n]);
      KeysAppend(Fresh(a, entries[..n]), if Has(a, entries[n].0) then [] else [entries[n]]);
      assert Keys(entries) == Keys(entries[..n]) + [entries[n].0];
    }
  }

  /** `AddAll` only ever appends: the old entries stay, in place and unchanged. */
  lemma {:induction false} AddAllExtends(a: Attrs, entries: Attrs)
    ensures |a| <= |AddAll(a, entries)| && AddAll(a, entries)[..|a|] == a
    ensures forall k :: Has(a, k) ==> Get(AddAll(a, entries), k) == Get(a, k)
    ensures forall e :: e in entries ==> Has(AddAll(a, entries), e.0)
  {
    if entries != [] {
      var n := |entries| - 1;
      AddAllExtends(a, entries[..n]);
      var b := AddAll(a, entries[..n]);
      KeysAppend(b, [entries[n]]);
      var r := AddAll(a, entries);
      assert r == b || r == b + [entries[n]];
      assert Keys(b)[..|a|] == Keys(a) by {
        KeysSlice(b, 0, |a|);
      }
      forall k | Has(a, k) ensures Get(r, k) == Get(a, k) {
        assert Has(b, k);
        if r != b {
          GetPrefix(b, [entries[n]], k);
        }
      }
      forall e | e in entries ensures Has(r, e.0) {
        if e in entries[..n] {
          assert Has(b, e.0);
          if r != b {
            assert Keys(r) == Keys(b) + [entries[n].0];
          }
        } else {
          assert e == entries[n];
          if r != b {
            assert Keys(r) == Keys(b) + [entries[n].0];
          }
        }
      }
    }
  }
}
