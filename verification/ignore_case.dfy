/** Collections built with `StringComparer.OrdinalIgnoreCase`. Such a set or
    dictionary holds at most one string per folded form, and keeps the spelling
    it saw first: adding a string that differs only in case changes nothing. */
module IgnoreCase {
  import opened Text

  /** `HashSet<string>(StringComparer.OrdinalIgnoreCase)`: each folded form maps
      to the spelling stored for it (see Keyed). */
  type CiSet = map<string, string>

  /** Every key is the folded form of the spelling stored under it. The
      operations below keep this. */
  predicate Keyed(s: CiSet)
  {
    forall k | k in s :: Fold(s[k]) == k
  }

  /** A new, empty set. */
  const EmptySet: CiSet := map[]

  /** A dictionary entry: the key spelling stored and its value. */
  datatype Entry<V> = Entry(key: string, value: V)

  /** `Dictionary<string, V>(StringComparer.OrdinalIgnoreCase)`, indexed by the
      folded form of the key (see KeyedMap). */
  type CiMap<V> = map<string, Entry<V>>

  predicate KeyedMap<V>(m: CiMap<V>)
  {
    forall k | k in m :: Fold(m[k].key) == k
  }

  /** `dictionary[key] = value`: the value is replaced, and an entry already
      present for the folded key keeps the spelling it had. */
  function Put<V>(m: CiMap<V>, key: string, value: V): (r: CiMap<V>)
    ensures r.Keys == m.Keys + {Fold(key)}
    ensures forall k | k in m && k != Fold(key) :: r[k] == m[k]
    ensures r[Fold(key)].value == value
    ensures KeyedMap(m) ==> KeyedMap(r)
  {
    m[Fold(key) := Entry(if Fold(key) in m then m[Fold(key)].key else key, value)]
  }

  predicate Contains(s: CiSet, x: string)
  {
    Fold(x) in s
  }

  /** The strings the set holds, as spelled. */
  function Spellings(s: CiSet): set<string>
  {
    s.Values
  }

  /** `HashSet.Add`: a string whose folded form is already present is ignored. */
  function Add(s: CiSet, x: string): (r: CiSet)
    ensures r.Keys == s.Keys + {Fold(x)}
    ensures forall k | k in s :: r[k] == s[k]
    ensures Fold(x) !in s ==> r[Fold(x)] == x
    ensures Contains(r, x)
    ensures Keyed(s) ==> Keyed(r)
  {
    if Fold(x) in s then s else s[Fold(x) := x]
  }

  /** `a.UnionWith(b)`: the spellings already in `a` win. */
  function Union(a: CiSet, b: CiSet): (r: CiSet)
    ensures r.Keys == a.Keys + b.Keys
    ensures forall k | k in a :: r[k] == a[k]
    ensures forall k | k in b && k !in a :: r[k] == b[k]
    ensures Keyed(a) && Keyed(b) ==> Keyed(r)
  {
    b + a
  }

  /** `xs.ToHashSet(comparer)` or `xs.Distinct(comparer)`: every string is held
      by its folded form, spelled as it first occurs. */
  function FromSeq(xs: seq<string>): (r: CiSet)
    ensures Keyed(r)
    ensures forall i | 0 <= i < |xs| :: Contains(r, xs[i])
    ensures forall k | k in r :: r[k] in xs
    ensures forall i | 0 <= i < |xs| && (forall j | 0 <= j < i :: Fold(xs[j]) != Fold(xs[i])) ::
              Fold(xs[i]) in r && r[Fold(xs[i])] == xs[i]
  {
    if xs == [] then map[]
    else
      var before := FromSeq(xs[..|xs| - 1]);
      assert forall i | 0 <= i < |xs| - 1 :: xs[..|xs| - 1][i] == xs[i];
      Add(before, xs[|xs| - 1])
  }

  lemma SpellingKey(s: CiSet, x: string)
    requires Keyed(s) && x in Spellings(s)
    ensures Fold(x) in s && s[Fold(x)] == x
  {
  }

  lemma UnionAssociative(a: CiSet, b: CiSet, c: CiSet)
    ensures Union(Union(a, b), c) == Union(a, Union(b, c))
  {
  }

  /** Adding what is already present by folded form leaves the set unchanged. */
  lemma UnionAbsorbs(a: CiSet, b: CiSet)
    requires b.Keys <= a.Keys
    ensures Union(a, b) == a
  {
  }

  lemma UnionEmpty(a: CiSet)
    ensures Union(a, map[]) == a && Union(map[], a) == a
  {
  }
}
