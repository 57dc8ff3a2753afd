/** The image record of the scan and of the driver: a dictionary whose keys are all
    optional, as in the `Image` TypedDict with `total=False`. Values are strings. */
module ImageDicts {
  import opened Wrappers

  type ImageDict = map<string, string>

  /** `d.get(key)`. */
  function Get(d: ImageDict, key: string): (r: Option<string>)
    ensures r.Some? <==> key in d
    ensures r.Some? ==> r.value == d[key]
  {
    if key in d then Some(d[key]) else None
  }

  /** Python truthiness of a looked-up string: present and not empty. */
  predicate Truthy(v: Option<string>) {
    v.Some? && v.value != ""
  }

  /** The record with the value under `from` moved to the key `to`; unchanged when
      `from` is absent. */
  function Rename(d: ImageDict, from: string, to: string): (r: ImageDict)
    requires from != to
    ensures from in d ==> from !in r && to in r && r[to] == d[from]
    ensures from !in d ==> r == d
    ensures forall key :: key != from && key != to ==> Get(r, key) == Get(d, key)
  {
    if from in d then (d - {from})[to := d[from]] else d
  }
}
