/** The JavaScript values the ordering engine works on: optional values, the
    links stored in the card-order record, and plain objects used as
    string-keyed records that remember the order in which their keys were
    first assigned (the order `Object.entries` enumerates them in). */
module Objects {

  datatype Option<T> = None | Some(value: T)

  /** Card ids and column ids are both plain strings. */
  type Id = string

  /** What reading a key of the card-order record yields: `null`, `undefined`
      (an absent key, or a key explicitly assigned `undefined`), or an id. */
  datatype Link = Null | Undefined | To(id: Id)

  /** JavaScript truthiness of a link: only a non-empty id is truthy. */
  predicate Truthy(l: Link) {
    l.To? && l.id != ""
  }

  /** A `Record<string, Link>` object: `keys` in enumeration order and the
      value stored under each key. */
  datatype Record = Record(keys: seq<Id>, entries: map<Id, Link>) {

    /** Each key is listed once, and exactly the stored keys are listed. */
    ghost predicate Valid() {
      && (forall i, j :: 0 <= i < j < |keys| ==> keys[i] != keys[j])
      && (forall k :: k in keys <==> k in entries)
    }
  }

  /** The empty object `{}`. */
  const Empty: Record := Record([], map[])

  /** Property access `r[k]`. */
  function Get(r: Record, k: Id): (l: Link)
    ensures k !in r.entries ==> l == Undefined
    ensures k in r.entries ==> l == r.entries[k]
  {
    if k in r.entries then r.entries[k] else Undefined
  }

  /** Assignment `r[k] = v`: a new key goes to the end of the enumeration
      order, an existing key keeps its place. */
  function Assign(r: Record, k: Id, v: Link): (r': Record)
    ensures Get(r', k) == v
    ensures forall k' :: k' != k ==> Get(r', k') == Get(r, k')
    ensures forall k' :: k' in r'.entries <==> k' == k || k' in r.entries
    ensures r.Valid() ==> r'.Valid()
    ensures r.Valid() && k in r.entries ==> r'.keys == r.keys
  {
    if k in r.entries then Record(r.keys, r.entries[k := v])
    else Record(r.keys + [k], r.entries[k := v])
  }

  /** The keys of `ks` that are not in `present`, in their order. */
  function NewKeys(ks: seq<Id>, present: set<Id>): (r: seq<Id>)
    ensures forall k :: k in r <==> k in ks && k !in present
    ensures (forall i, j :: 0 <= i < j < |ks| ==> ks[i] != ks[j]) ==>
              forall i, j :: 0 <= i < j < |r| ==> r[i] != r[j]
  {
    if ks == [] then []
    else if ks[0] in present then NewKeys(ks[1..], present)
    else [ks[0]] + NewKeys(ks[1..], present)
  }

  /** The object spread `{...r, ...p}`: every key of `p` overwrites, keys new
      to `r` are appended in `p`'s order. */
  function Spread(r: Record, p: Record): (r': Record)
    ensures forall k :: Get(r', k) == if k in p.entries then p.entries[k] else Get(r, k)
  {
    Record(r.keys + NewKeys(p.keys, r.entries.Keys), r.entries + p.entries)
  }

  /** Spreading one well-formed object over another gives a well-formed object. */
  lemma SpreadValid(r: Record, p: Record)
    requires r.Valid() && p.Valid()
    ensures Spread(r, p).Valid()
  {
    var extra := NewKeys(p.keys, r.entries.Keys);
    var ks := r.keys + extra;
    forall i, j | 0 <= i < j < |ks| ensures ks[i] != ks[j] {
      if j >= |r.keys| && i < |r.keys| {
        assert ks[j] in extra;
        assert ks[i] in r.keys;
      } else if i >= |r.keys| {
        assert ks[i] == extra[i - |r.keys|] && ks[j] == extra[j - |r.keys|];
      }
    }
  }

  /** Whether the entry under key `k` passes the test `v && v === target`. */
  predicate Matches(r: Record, k: Id, target: Link) {
    Truthy(Get(r, k)) && Get(r, k) == target
  }

  /** `Object.entries(r).find(([, v]) => v && v === target)`, reduced to the
      key it finds: the first key in enumeration order whose value is truthy
      and equal to `target`. */
  function Find(r: Record, target: Link): (found: Option<Id>)
    ensures found.Some? ==> found.value in r.keys && Matches(r, found.value, target)
    ensures found.Some? ==> exists i :: 0 <= i < |r.keys| && r.keys[i] == found.value &&
                              forall j :: 0 <= j < i ==> !Matches(r, r.keys[j], target)
    ensures found.None? ==> forall k :: k in r.keys ==> !Matches(r, k, target)
  {
    FindFrom(r, target, 0)
  }

  /** The first key at or after position `i` of the enumeration order that
      passes the test of `Find`. */
  function FindFrom(r: Record, target: Link, i: nat): (found: Option<Id>)
    requires i <= |r.keys|
    requires forall j :: 0 <= j < i ==> !Matches(r, r.keys[j], target)
    ensures found.Some? ==> exists n :: i <= n < |r.keys| && r.keys[n] == found.value &&
                              Matches(r, found.value, target) &&
                              forall j :: 0 <= j < n ==> !Matches(r, r.keys[j], target)
    ensures found.None? ==> forall j :: 0 <= j < |r.keys| ==> !Matches(r, r.keys[j], target)
    decreases |r.keys| - i
  {
    if i == |r.keys| then None
    else if Matches(r, r.keys[i], target) then Some(r.keys[i])
    else FindFrom(r, target, i + 1)
  }
}
