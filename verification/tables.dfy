/**
  The lookup-table records the calculators resolve ids against (the
  interfaces of lib/supabase.ts, without the optional bookkeeping fields),
  and the first-match search that `Array.prototype.find` performs on them.
 */
module Tables {

  datatype Option<T> = None | Some(value: T)

  datatype Region = Region(id: string, name: string, multiplier: real)

  datatype Role = Role(id: string, name: string, baseRate: real)

  datatype SeniorityLevel = SeniorityLevel(id: string, name: string, multiplier: real)

  // `label` is a Dafny keyword, so the display text is called `caption` here.
  datatype WorkloadOption = WorkloadOption(id: string, caption: string, percentage: real)

  datatype DurationOption = DurationOption(id: string, caption: string, months: real, discount: real)

  datatype Currency = Currency(code: string, name: string, symbol: string, exchangeRate: real)

  /** The keys the hooks search their tables by (`x.id`, or `c.code` for currencies). */
  function RegionId(r: Region): string { r.id }
  function RoleId(r: Role): string { r.id }
  function SeniorityId(s: SeniorityLevel): string { s.id }
  function WorkloadId(w: WorkloadOption): string { w.id }
  function DurationId(d: DurationOption): string { d.id }
  function CurrencyCode(c: Currency): string { c.code }

  /** `i` is the position of the first element of `xs` whose key is `id`. */
  ghost predicate FirstMatch<T>(xs: seq<T>, key: T -> string, id: string, i: int)
  {
    0 <= i < |xs| && key(xs[i]) == id && forall j :: 0 <= j < i ==> key(xs[j]) != id
  }

  /** `xs.find((x) => x.key === id)`: the first element with that key, or nothing. */
  function Find<T>(xs: seq<T>, key: T -> string, id: string): (r: Option<T>)
    ensures r.None? <==> forall i :: 0 <= i < |xs| ==> key(xs[i]) != id
    ensures r.Some? ==> exists i :: FirstMatch(xs, key, id, i) && xs[i] == r.value
  {
    if xs == [] then None
    else if key(xs[0]) == id then Some(xs[0])
    else
      var r := Find(xs[1..], key, id);
      assert forall i :: 1 <= i < |xs| ==> xs[i] == xs[1..][i - 1];
      assert r.Some? ==> exists i :: FirstMatch(xs, key, id, i) && xs[i] == r.value by {
        if r.Some? {
          var k :| FirstMatch(xs[1..], key, id, k) && xs[1..][k] == r.value;
          assert FirstMatch(xs, key, id, k + 1);
        }
      }
      r
  }

  /** Whatever `Find` returns is the element at the first matching position,
      so among duplicate ids the earliest entry wins. */
  lemma FindReturnsFirst<T>(xs: seq<T>, key: T -> string, id: string, i: int)
    requires FirstMatch(xs, key, id, i)
    ensures Find(xs, key, id) == Some(xs[i])
  {
    assert key(xs[i]) == id;
    var k :| FirstMatch(xs, key, id, k) && xs[k] == Find(xs, key, id).value;
    assert FirstMatch(xs, key, id, k);
    assert k == i;
  }

  /** No two entries of `xs` share a key. */
  ghost predicate DistinctBy<T>(xs: seq<T>, key: T -> string)
  {
    forall i, j :: 0 <= i < j < |xs| ==> key(xs[i]) != key(xs[j])
  }

  /** In a table whose keys are distinct, looking up the key of any entry
      yields that very entry. */
  lemma FindDistinct<T>(xs: seq<T>, key: T -> string, i: int)
    requires DistinctBy(xs, key)
    requires 0 <= i < |xs|
    ensures Find(xs, key, key(xs[i])) == Some(xs[i])
  {
    assert FirstMatch(xs, key, key(xs[i]), i);
    FindReturnsFirst(xs, key, key(xs[i]), i);
  }
}
