/**
 Finding the config keys a parse did not recognise, by comparing the raw key
 tree with the one that came back.
 */
module KeyTree {
  import opened Wrappers
  import opened Text

  /** A TOML value as far as keys go: a table of distinct keys in iteration order, or anything else. */
  datatype Value = Leaf | Table(entries: seq<(string, Value)>)

  type Path = seq<string>

  predicate DistinctKeys(entries: seq<(string, Value)>) {
    forall i, j :: 0 <= i < j < |entries| ==> entries[i].0 != entries[j].0
  }

  ghost predicate ValidTree(v: Value)
    decreases v
  {
    v.Table? ==> DistinctKeys(v.entries) && forall i :: 0 <= i < |v.entries| ==> ValidTree(v.entries[i].1)
  }

  function Lookup(entries: seq<(string, Value)>, key: string): (r: Option<Value>)
    ensures r.Some? <==> exists i :: 0 <= i < |entries| && entries[i].0 == key
    ensures r.Some? ==> exists i :: 0 <= i < |entries| && entries[i] == (key, r.value)
  {
    if entries == [] then None
    else if entries[0].0 == key then
      assert entries[0] == (key, entries[0].1);
      Some(entries[0].1)
    else
      var r := Lookup(entries[1..], key);
      assert forall i :: 0 <= i < |entries| - 1 ==> entries[i + 1] == entries[1..][i];
      r
  }

  lemma LookupAt(entries: seq<(string, Value)>, i: nat)
    requires DistinctKeys(entries) && i < |entries|
    ensures Lookup(entries, entries[i].0) == Some(entries[i].1)
  {
    var r := Lookup(entries, entries[i].0);
    var j :| 0 <= j < |entries| && entries[j] == (entries[i].0, r.value);
    assert j == i;
  }

  // ----- The walk ----------------------------------------------------------------------

  /** The dotted paths the walk records, in order. */
  function Unknown(prefix: string, raw: Value, recognised: Value): seq<string>
    decreases raw, 1
  {
    if raw.Table? && recognised.Table? then UnknownIn(prefix, raw, raw.entries, recognised.entries) else []
  }

  function UnknownIn(prefix: string, ghost whole: Value, entries: seq<(string, Value)>, known: seq<(string, Value)>)
    : seq<string>
    requires forall i :: 0 <= i < |entries| ==> entries[i].1 < whole
    decreases whole, 0, |entries|
  {
    if entries == [] then []
    else
      var (key, value) := entries[0];
      var found := Lookup(known, key);
      assert entries[0].1 < whole;
      (if found.None? then [prefix + key] else Unknown(prefix + key + ".", value, found.value))
      + UnknownIn(prefix, whole, entries[1..], known)
  }

  method CollectUnknownKeys(prefix: string, raw: Value, recognised: Value, out: seq<string>) returns (result: seq<string>)
    ensures result == out + Unknown(prefix, raw, recognised)
    decreases raw
  {
    hide Lookup;
    result := out;
    if !raw.Table? || !recognised.Table? {
      assert out + [] == out;
      return;
    }
    var entries := raw.entries;
    for i := 0 to |entries|
      invariant result + UnknownIn(prefix, raw, entries[i..], recognised.entries)
                == out + UnknownIn(prefix, raw, entries, recognised.entries)
    {
      assert entries[i..][0] == entries[i] && entries[i..][1..] == entries[i + 1..];
      var (key, value) := entries[i];
      assert value == entries[i].1 && entries[i].1 < raw;
      var path := prefix + key;
      var found := Lookup(recognised.entries, key);
      ghost var rest := UnknownIn(prefix, raw, entries[i + 1..], recognised.entries);
      ghost var before := result;
      if found.None? {
        result := result + [path];
        ConcatAssoc(before, [path], rest);
      } else {
        result := CollectUnknownKeys(path + ".", value, found.value, result);
        ConcatAssoc(before, Unknown(path + ".", value, found.value), rest);
      }
    }
    assert result + [] == result;
  }

  // ----- Paths ---------------------------------------------------------------------------

  /** The value at a path, going down tables only. */
  function Get(v: Value, p: Path): Option<Value>
    decreases |p|
  {
    if p == [] then Some(v)
    else if v.Leaf? then None
    else
      match Lookup(v.entries, p[0])
      case None => None
      case Some(w) => Get(w, p[1..])
  }

  /** `p` is in `raw`, not in `recognised`, and every table above it is in both. */
  ghost predicate MinimalMissing(raw: Value, recognised: Value, p: Path) {
    && Get(raw, p).Some?
    && Get(recognised, p).None?
    && forall k :: 0 <= k < |p| ==> Get(recognised, p[..k]).Some? && Get(recognised, p[..k]).value.Table?
  }

  function Dotted(p: Path): string {
    if p == [] then "" else if |p| == 1 then p[0] else p[0] + "." + Dotted(p[1..])
  }

  /** The same walk, recording paths instead of strings. */
  function MissingPaths(raw: Value, recognised: Value): (ps: seq<Path>)
    ensures forall i :: 0 <= i < |ps| ==> ps[i] != []
    decreases raw, 1
  {
    if raw.Table? && recognised.Table? then MissingIn(raw, raw.entries, recognised.entries) else []
  }

  function MissingIn(ghost whole: Value, entries: seq<(string, Value)>, known: seq<(string, Value)>): (ps: seq<Path>)
    requires forall i :: 0 <= i < |entries| ==> entries[i].1 < whole
    ensures forall i :: 0 <= i < |ps| ==> ps[i] != []
    decreases whole, 0, |entries|
  {
    if entries == [] then []
    else
      assert entries[0].1 < whole;
      EntryPaths(whole, entries[0], known) + MissingIn(whole, entries[1..], known)
  }

  function EntryPaths(ghost whole: Value, entry: (string, Value), known: seq<(string, Value)>): (ps: seq<Path>)
    requires entry.1 < whole
    ensures forall i :: 0 <= i < |ps| ==> ps[i] != []
    decreases whole, 0, 0
  {
    var found := Lookup(known, entry.0);
    if found.None? then [[entry.0]] else Under(entry.0, MissingPaths(entry.1, found.value))
  }

  function Under(key: string, ps: seq<Path>): (r: seq<Path>)
    ensures |r| == |ps| && forall i :: 0 <= i < |ps| ==> r[i] == [key] + ps[i]
  {
    seq(|ps|, i requires 0 <= i < |ps| => [key] + ps[i])
  }

  function Rendered(prefix: string, ps: seq<Path>): (r: seq<string>)
    ensures |r| == |ps| && forall i :: 0 <= i < |ps| ==> r[i] == prefix + Dotted(ps[i])
  {
    seq(|ps|, i requires 0 <= i < |ps| => prefix + Dotted(ps[i]))
  }

  lemma RenderedUnder(prefix: string, key: string, ps: seq<Path>)
    requires forall i :: 0 <= i < |ps| ==> ps[i] != []
    ensures Rendered(prefix, Under(key, ps)) == Rendered(prefix + key + ".", ps)
  {
    forall i | 0 <= i < |ps| ensures prefix + Dotted([key] + ps[i]) == prefix + key + "." + Dotted(ps[i]) {
      assert ([key] + ps[i])[1..] == ps[i];
      assert prefix + (key + "." + Dotted(ps[i])) == prefix + key + "." + Dotted(ps[i]);
    }
  }

  lemma RenderedConcat(prefix: string, a: seq<Path>, b: seq<Path>)
    ensures Rendered(prefix, a + b) == Rendered(prefix, a) + Rendered(prefix, b)
  {
  }

  /** What the walk records is each missing path, dotted, behind the prefix. */
  lemma {:induction false} UnknownIsRendered(prefix: string, raw: Value, recognised: Value)
    ensures Unknown(prefix, raw, recognised) == Rendered(prefix, MissingPaths(raw, recognised))
    decreases raw, 1
  {
    if raw.Table? && recognised.Table? {
      UnknownInIsRendered(prefix, raw, raw.entries, recognised.entries);
    }
  }

  lemma {:induction false} UnknownInIsRendered(prefix: string, whole: Value, entries: seq<(string, Value)>,
                                               known: seq<(string, Value)>)
    requires forall i :: 0 <= i < |entries| ==> entries[i].1 < whole
    ensures UnknownIn(prefix, whole, entries, known) == Rendered(prefix, MissingIn(whole, entries, known))
    decreases whole, 0, |entries|
  {
    if entries != [] {
      var (key, value) := entries[0];
      assert entries[0].1 < whole;
      hide Rendered, Lookup, EntryPaths;
      UnknownInIsRendered(prefix, whole, entries[1..], known);
      RenderedConcat(prefix, EntryPaths(whole, entries[0], known), MissingIn(whole, entries[1..], known));
      EntryIsRendered(prefix, whole, entries[0], known);
    }
  }

  lemma {:induction false} EntryIsRendered(prefix: string, whole: Value, entry: (string, Value), known: seq<(string, Value)>)
    requires entry.1 < whole
    ensures (var found := Lookup(known, entry.0);
             if found.None? then [prefix + entry.0] else Unknown(prefix + entry.0 + ".", entry.1, found.value))
            == Rendered(prefix, EntryPaths(whole, entry, known))
    decreases whole, 0, 0
  {
    hide Lookup, Unknown, MissingPaths;
    var (key, value) := entry;
    var found := Lookup(known, key);
    if found.Some? {
      UnknownIsRendered(prefix + key + ".", value, found.value);
      RenderedUnder(prefix, key, MissingPaths(value, found.value));
    } else {
      assert Dotted([key]) == key;
    }
  }

  // ----- Exactly the minimal missing paths ---------------------------------------------------

  lemma InUnder(key: string, ps: seq<Path>, p: Path)
    ensures p in Under(key, ps) <==> p != [] && p[0] == key && p[1..] in ps
  {
    var r := Under(key, ps);
    if p in r {
      var i :| 0 <= i < |r| && r[i] == p;
      assert p == [key] + ps[i];
      assert p[1..] == ps[i];
    }
    if p != [] && p[0] == key && p[1..] in ps {
      var i :| 0 <= i < |ps| && ps[i] == p[1..];
      assert r[i] == p;
    }
  }

  lemma {:induction false} InMissing(raw: Value, recognised: Value, p: Path)
    requires ValidTree(raw)
    ensures p in MissingPaths(raw, recognised) <==> MinimalMissing(raw, recognised, p)
    decreases raw, 1
  {
    if raw.Table? && recognised.Table? {
      InMissingIn(raw, raw.entries, recognised, p);
      if p == [] {
        assert Get(recognised, p).Some?;
      } else {
        var found := Lookup(raw.entries, p[0]);
        if found.Some? {
          var i :| 0 <= i < |raw.entries| && raw.entries[i] == (p[0], found.value);
          HeadMissing(raw, i, recognised, p);
        }
      }
    } else {
      NoneMissing(raw, recognised, p);
    }
  }

  lemma NoneMissing(raw: Value, recognised: Value, p: Path)
    requires raw.Leaf? || recognised.Leaf?
    ensures !MinimalMissing(raw, recognised, p)
  {
    if p != [] && recognised.Leaf? {
      assert p[..0] == [];
      assert Get(recognised, p[..0]) == Some(recognised);
    }
  }

  /** A path is recorded for the one entry its first key names. */
  lemma {:induction false} InMissingIn(raw: Value, entries: seq<(string, Value)>, recognised: Value, p: Path)
    requires recognised.Table?
    requires forall i :: 0 <= i < |entries| ==> entries[i].1 < raw
    ensures p in MissingIn(raw, entries, recognised.entries)
            <==> exists i :: 0 <= i < |entries| && p in EntryPaths(raw, entries[i], recognised.entries)
    decreases |entries|
  {
    if entries != [] {
      InMissingIn(raw, entries[1..], recognised, p);
      assert entries[0].1 < raw;
      assert forall i :: 0 <= i < |entries| - 1 ==> entries[1..][i] == entries[i + 1];
      if p in MissingIn(raw, entries[1..], recognised.entries) {
        var i :| 0 <= i < |entries| - 1 && p in EntryPaths(raw, entries[1..][i], recognised.entries);
        assert p in EntryPaths(raw, entries[i + 1], recognised.entries);
      }
    }
  }

  lemma EntryKey(raw: Value, entry: (string, Value), known: seq<(string, Value)>, p: Path)
    requires entry.1 < raw && p in EntryPaths(raw, entry, known)
    ensures p != [] && p[0] == entry.0
  {
    var found := Lookup(known, entry.0);
    if found.Some? { InUnder(entry.0, MissingPaths(entry.1, found.value), p); }
  }

  lemma {:induction false} HeadMissing(raw: Value, i: nat, recognised: Value, p: Path)
    requires raw.Table? && recognised.Table? && ValidTree(raw) && i < |raw.entries|
    requires p != [] && raw.entries[i].0 == p[0]
    ensures (exists j :: 0 <= j < |raw.entries| && p in EntryPaths(raw, raw.entries[j], recognised.entries))
            <==> MinimalMissing(raw, recognised, p)
    decreases raw, 0
  {
    var entry := raw.entries[i];
    var found := Lookup(recognised.entries, p[0]);
    LookupAt(raw.entries, i);
    if exists j :: 0 <= j < |raw.entries| && p in EntryPaths(raw, raw.entries[j], recognised.entries) {
      var j :| 0 <= j < |raw.entries| && p in EntryPaths(raw, raw.entries[j], recognised.entries);
      EntryKey(raw, raw.entries[j], recognised.entries, p);
      assert j == i;
    }
    assert Get(raw, p) == Get(entry.1, p[1..]);
    if found.None? {
      LastKeyMissing(raw, recognised, p);
    } else {
      InMissing(entry.1, found.value, p[1..]);
      InUnder(entry.0, MissingPaths(entry.1, found.value), p);
      InnerMissing(raw, entry.1, recognised, found.value, p);
    }
  }

  lemma LastKeyMissing(raw: Value, recognised: Value, p: Path)
    requires p != [] && recognised.Table? && Lookup(recognised.entries, p[0]).None? && Get(raw, [p[0]]).Some?
    ensures MinimalMissing(raw, recognised, p) <==> p == [p[0]]
  {
    if p == [p[0]] {
      assert forall k :: 0 <= k < |p| ==> p[..k] == [];
    } else {
      assert p[..1][0] == p[0];
      assert Get(recognised, p[..1]).None?;
    }
  }

  lemma InnerMissing(raw: Value, value: Value, recognised: Value, known: Value, p: Path)
    requires p != [] && recognised.Table? && Lookup(recognised.entries, p[0]) == Some(known)
    requires Get(raw, p) == Get(value, p[1..])
    ensures MinimalMissing(raw, recognised, p) <==> MinimalMissing(value, known, p[1..])
  {
    assert Get(recognised, p) == Get(known, p[1..]);
    assert Get(recognised, p[..0]) == Some(recognised);
    forall k | 1 <= k < |p| ensures Get(recognised, p[..k]) == Get(known, p[1..][..k - 1]) {
      assert p[..k][0] == p[0] && p[..k][1..] == p[1..][..k - 1];
    }
    if MinimalMissing(raw, recognised, p) {
      forall k | 0 <= k < |p[1..]| ensures Get(known, p[1..][..k]).Some? && Get(known, p[1..][..k]).value.Table? {
        assert Get(recognised, p[..k + 1]) == Get(known, p[1..][..k]);
      }
    }
    if MinimalMissing(value, known, p[1..]) {
      forall k | 0 <= k < |p| ensures Get(recognised, p[..k]).Some? && Get(recognised, p[..k]).value.Table? {
        if k > 0 { assert Get(recognised, p[..k]) == Get(known, p[1..][..k - 1]); }
      }
    }
  }

  ghost predicate NoRepeats(ps: seq<Path>) {
    forall i, j :: 0 <= i < j < |ps| ==> ps[i] != ps[j]
  }

  lemma NoRepeatsConcat(a: seq<Path>, b: seq<Path>)
    requires NoRepeats(a) && NoRepeats(b) && forall p :: p in a ==> p !in b
    ensures NoRepeats(a + b)
  {
    var c := a + b;
    forall i, j | 0 <= i < j < |c| ensures c[i] != c[j] {
      assert i < |a| <= j ==> c[i] in a && c[j] in b;
    }
  }

  lemma NoRepeatsUnder(key: string, ps: seq<Path>)
    requires NoRepeats(ps)
    ensures NoRepeats(Under(key, ps))
  {
    var r := Under(key, ps);
    forall i, j | 0 <= i < j < |r| ensures r[i] != r[j] {
      assert r[i][1..] == ps[i] && r[j][1..] == ps[j];
    }
  }

  /** Each missing path is recorded once. */
  lemma {:induction false} MissingOnce(raw: Value, recognised: Value)
    requires ValidTree(raw)
    ensures NoRepeats(MissingPaths(raw, recognised))
    decreases raw, 1
  {
    if raw.Table? && recognised.Table? { MissingOnceIn(raw, raw.entries, recognised); }
  }

  lemma {:induction false} MissingOnceIn(whole: Value, entries: seq<(string, Value)>, recognised: Value)
    requires recognised.Table? && DistinctKeys(entries)
    requires forall i :: 0 <= i < |entries| ==> entries[i].1 < whole && ValidTree(entries[i].1)
    ensures NoRepeats(MissingIn(whole, entries, recognised.entries))
    decreases whole, 0, |entries|
  {
    if entries != [] {
      var known := recognised.entries;
      var entry, rest := entries[0], entries[1..];
      assert entry.1 < whole;
      assert forall i :: 0 <= i < |rest| ==> rest[i] == entries[i + 1];
      MissingOnceIn(whole, rest, recognised);
      EntryOnce(whole, entry, known);
      forall p | p in EntryPaths(whole, entry, known) ensures p !in MissingIn(whole, rest, known) {
        EntryKey(whole, entry, known, p);
        InMissingIn(whole, rest, recognised, p);
        forall i | 0 <= i < |rest| && p in EntryPaths(whole, rest[i], known) ensures false {
          EntryKey(whole, rest[i], known, p);
        }
      }
      NoRepeatsConcat(EntryPaths(whole, entry, known), MissingIn(whole, rest, known));
    }
  }

  lemma {:induction false} EntryOnce(whole: Value, entry: (string, Value), known: seq<(string, Value)>)
    requires entry.1 < whole && ValidTree(entry.1)
    ensures NoRepeats(EntryPaths(whole, entry, known))
    decreases whole, 0, 0
  {
    var found := Lookup(known, entry.0);
    if found.Some? {
      MissingOnce(entry.1, found.value);
      NoRepeatsUnder(entry.0, MissingPaths(entry.1, found.value));
    }
  }

  /** The walk warns of exactly the minimal missing paths, each once, written with dots. */
  lemma ExactlyMinimalMissing(raw: Value, recognised: Value, p: Path)
    requires ValidTree(raw)
    ensures p in MissingPaths(raw, recognised) <==> MinimalMissing(raw, recognised, p)
    ensures NoRepeats(MissingPaths(raw, recognised))
    ensures Unknown("", raw, recognised) == Rendered("", MissingPaths(raw, recognised))
  {
    MissingOnce(raw, recognised);
    InMissing(raw, recognised, p);
    UnknownIsRendered("", raw, recognised);
  }

  // ----- Pruning -----------------------------------------------------------------------------

  /** `v`, which sits at path `at`, without the entries at the paths in `drop`. */
  function Pruned(v: Value, at: Path, drop: set<Path>): Value
    decreases v, 1
  {
    if v.Leaf? then v else Table(PrunedEntries(v, v.entries, at, drop))
  }

  function PrunedEntries(ghost whole: Value, entries: seq<(string, Value)>, at: Path, drop: set<Path>): seq<(string, Value)>
    requires forall i :: 0 <= i < |entries| ==> entries[i].1 < whole
    decreases whole, 0, |entries|
  {
    if entries == [] then []
    else
      var here := at + [entries[0].0];
      assert entries[0].1 < whole;
      (if here in drop then [] else [(entries[0].0, Pruned(entries[0].1, here, drop))])
      + PrunedEntries(whole, entries[1..], at, drop)
  }

  lemma {:induction false} PrunedLookup(whole: Value, entries: seq<(string, Value)>, at: Path, drop: set<Path>, key: string)
    requires forall i :: 0 <= i < |entries| ==> entries[i].1 < whole
    requires DistinctKeys(entries)
    ensures var found := Lookup(entries, key);
            Lookup(PrunedEntries(whole, entries, at, drop), key) ==
            if found.None? || at + [key] in drop then None else Some(Pruned(found.value, at + [key], drop))
    decreases |entries|
  {
    if entries != [] {
      var rest := PrunedEntries(whole, entries[1..], at, drop);
      assert entries[0].1 < whole;
      assert DistinctKeys(entries[1..]);
      PrunedLookup(whole, entries[1..], at, drop, key);
      var all := PrunedEntries(whole, entries, at, drop);
      var here := at + [entries[0].0];
      assert forall i :: 0 <= i < |entries| - 1 ==> entries[1..][i].0 == entries[i + 1].0 != entries[0].0;
      if here in drop {
        assert all == rest;
      } else {
        assert all == [(entries[0].0, Pruned(entries[0].1, here, drop))] + rest;
        assert all[1..] == rest;
      }
    }
  }

  /** Pruning removes exactly the paths that pass through a dropped one. */
  lemma {:induction false} PrunedGet(v: Value, at: Path, drop: set<Path>, p: Path)
    requires ValidTree(v)
    ensures Get(Pruned(v, at, drop), p).Some?
            <==> Get(v, p).Some? && Spared(at, drop, p)
    decreases |p|
  {
    if p != [] && v.Table? {
      PrunedLookup(v, v.entries, at, drop, p[0]);
      var found := Lookup(v.entries, p[0]);
      assert p[..1] == [p[0]];
      if found.Some? && at + [p[0]] !in drop {
        var i :| 0 <= i < |v.entries| && v.entries[i] == (p[0], found.value);
        PrunedGet(found.value, at + [p[0]], drop, p[1..]);
        SparedBelow(at, drop, p);
      } else {
        assert at + p[..1] == at + [p[0]];
      }
    }
  }

  /** No dropped path on the way down to `p`, from `at`. */
  ghost predicate Spared(at: Path, drop: set<Path>, p: Path) {
    forall k :: 1 <= k <= |p| ==> at + p[..k] !in drop
  }

  lemma SparedBelow(at: Path, drop: set<Path>, p: Path)
    requires p != [] && at + [p[0]] !in drop
    ensures Spared(at, drop, p) <==> Spared(at + [p[0]], drop, p[1..])
  {
    forall k | 1 <= k <= |p[1..]| ensures at + [p[0]] + p[1..][..k] == at + p[..k + 1] {
      assert p[..k + 1] == [p[0]] + p[1..][..k];
    }
    assert at + p[..1] == at + [p[0]];
    forall k | 2 <= k <= |p| ensures at + p[..k] == at + [p[0]] + p[1..][..k - 1] {
      assert p[..k] == [p[0]] + p[1..][..k - 1];
    }
  }

  lemma {:induction false} PrunedValid(v: Value, at: Path, drop: set<Path>)
    requires ValidTree(v)
    ensures ValidTree(Pruned(v, at, drop))
    decreases v, 1
  {
    if v.Table? {
      PrunedEntriesValid(v, v.entries, at, drop);
    }
  }

  function KeysOf(entries: seq<(string, Value)>): set<string> {
    set i | 0 <= i < |entries| :: entries[i].0
  }

  lemma ConsKeys(e: (string, Value), rest: seq<(string, Value)>)
    ensures KeysOf([e] + rest) == {e.0} + KeysOf(rest)
    ensures DistinctKeys([e] + rest) <==> e.0 !in KeysOf(rest) && DistinctKeys(rest)
  {
    var all := [e] + rest;
    assert all[0] == e && forall i :: 0 <= i < |rest| ==> all[i + 1] == rest[i];
    if DistinctKeys(all) {
      forall i, j | 0 <= i < j < |rest| ensures rest[i].0 != rest[j].0 {
        assert all[i + 1].0 != all[j + 1].0;
      }
    }
    forall k | k in KeysOf(rest) ensures k in KeysOf(all) {
      var i :| 0 <= i < |rest| && rest[i].0 == k;
      assert all[i + 1].0 == k;
    }
  }

  lemma {:induction false} PrunedEntriesValid(whole: Value, entries: seq<(string, Value)>, at: Path, drop: set<Path>)
    requires forall i :: 0 <= i < |entries| ==> entries[i].1 < whole && ValidTree(entries[i].1)
    requires DistinctKeys(entries)
    ensures var r := PrunedEntries(whole, entries, at, drop);
            && DistinctKeys(r) && KeysOf(r) <= KeysOf(entries)
            && (forall i :: 0 <= i < |r| ==> ValidTree(r[i].1))
    decreases whole, 0, |entries|
  {
    if entries != [] {
      hide ValidTree, DistinctKeys, KeysOf, Pruned;
      var here := at + [entries[0].0];
      assert entries[0].1 < whole;
      assert entries == [entries[0]] + entries[1..];
      ConsKeys(entries[0], entries[1..]);
      PrunedEntriesValid(whole, entries[1..], at, drop);
      PrunedValid(entries[0].1, here, drop);
      ConsKeys((entries[0].0, Pruned(entries[0].1, here, drop)), PrunedEntries(whole, entries[1..], at, drop));
    }
  }

  /** Without the warned paths nothing is left to warn about, and nothing else is lost. */
  lemma PrunedIsRecognised(raw: Value, recognised: Value, p: Path)
    requires ValidTree(raw)
    ensures var drop := set q | q in MissingPaths(raw, recognised);
            && MissingPaths(Pruned(raw, [], drop), recognised) == []
            && (Get(Pruned(raw, [], drop), p).Some?
                <==> Get(raw, p).Some? && forall k :: 1 <= k <= |p| ==> p[..k] !in drop)
  {
    var drop := set q | q in MissingPaths(raw, recognised);
    var pruned := Pruned(raw, [], drop);
    PrunedValid(raw, [], drop);
    var left := MissingPaths(pruned, recognised);
    if left != [] {
      var q := left[0];
      InMissing(pruned, recognised, q);
      PrunedGet(raw, [], drop, q);
      assert [] + q[..|q|] == q;
      InMissing(raw, recognised, q);
    }
    PrunedGet(raw, [], drop, p);
    assert forall k :: 1 <= k <= |p| ==> [] + p[..k] == p[..k];
  }

  /** No warning exactly when nothing is missing. */
  lemma NoWarningIff(raw: Value, recognised: Value)
    requires ValidTree(raw)
    ensures Unknown("", raw, recognised) == [] <==> forall p :: !MinimalMissing(raw, recognised, p)
  {
    UnknownIsRendered("", raw, recognised);
    var ps := MissingPaths(raw, recognised);
    if ps != [] {
      InMissing(raw, recognised, ps[0]);
    } else {
      forall p ensures !MinimalMissing(raw, recognised, p) {
        InMissing(raw, recognised, p);
      }
    }
  }
}
