/** The accepted-types table of keeper/constants.py: a MIME type, exact or a
    wildcard on the major type, to a Font Awesome icon class. Python keeps dict keys in
    insertion order and unique, so the table is a sequence of pairs whose
    keys are distinct. Both the server and the browser script consult it. */
module Constants {
  import opened Wrappers

  type Table = seq<(string, string)>

  /** The keys in iteration order: `list(table.keys())`. */
  function Keys(table: Table): (ks: seq<string>)
    ensures |ks| == |table|
    ensures forall i :: 0 <= i < |table| ==> ks[i] == table[i].0
  {
    if |table| == 0 then [] else [table[0].0] + Keys(table[1..])
  }

  /** Python dicts never hold a key twice. */
  predicate DistinctKeys(table: Table)
  {
    forall i, j :: 0 <= i < j < |table| ==> table[i].0 != table[j].0
  }

  /** `table.get(key)`: the value stored under `key`, if any. */
  function Lookup(table: Table, key: string): (r: Option<string>)
    ensures r.None? <==> key !in Keys(table)
    ensures r.Some? ==> exists i :: 0 <= i < |table| && table[i] == (key, r.value)
  {
    if |table| == 0 then None
    else if table[0].0 == key then Some(table[0].1)
    else Lookup(table[1..], key)
  }

  const AcceptedFileTypes: Table := [
    ("image/*", "file-image"),
    ("video/*", "file-video"),
    ("audio/*", "file-audio"),
    ("application/msword", "file-word"),
    ("application/pdf", "file-pdf"),
    ("text/plain", "file-lines"),
    ("text/html", "file-code")
  ]

  lemma AcceptedFileTypesWellFormed()
    ensures DistinctKeys(AcceptedFileTypes)
  {
  }

  /** The keys of the shipped table, in order. */
  lemma AcceptedKeys()
    ensures Keys(AcceptedFileTypes) == ["image/*", "video/*", "audio/*", "application/msword",
                                        "application/pdf", "text/plain", "text/html"]
  {
  }

  /** In a table with distinct keys, looking up the key of entry `i` yields
      that entry's value. */
  lemma {:induction false} LookupAt(table: Table, i: nat)
    requires DistinctKeys(table) && i < |table|
    ensures Lookup(table, table[i].0) == Some(table[i].1)
  {
    if i > 0 {
      LookupAt(table[1..], i - 1);
    }
  }
}
