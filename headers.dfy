/** Column lookup by header name, shared by the PLACES pivot and the burden model:
    `headerIndex` maps each trimmed header cell to its position, and `index` wraps that map in a
    lookup whose miss yields Go's zero value 0. */
module Headers {
  import opened Text

  /** Each header cell with its surrounding white space removed. */
  function Trimmed(hdr: seq<string>): (r: seq<string>)
    ensures |r| == |hdr| && forall i :: 0 <= i < |hdr| ==> r[i] == TrimSpace(hdr[i])
  {
    seq(|hdr|, i requires 0 <= i < |hdr| => TrimSpace(hdr[i]))
  }

  /** Positions keyed by name, a later duplicate replacing an earlier one. */
  function LastPositions(names: seq<string>): (m: map<string, nat>)
    ensures forall k :: k in m ==> m[k] < |names|
  {
    if names == [] then map[]
    else LastPositions(names[..|names| - 1])[names[|names| - 1] := |names| - 1]
  }

  /** Keys are exactly the names; a name maps to the LAST position carrying it. */
  lemma {:induction false} LastPositionsSpec(names: seq<string>)
    ensures forall k :: k in LastPositions(names) <==> k in names
    ensures forall k :: k in LastPositions(names) ==>
              names[LastPositions(names)[k]] == k &&
              forall j :: LastPositions(names)[k] < j < |names| ==> names[j] != k
  {
    if names != [] {
      var n := |names| - 1;
      var pre := names[..n];
      LastPositionsSpec(pre);
      assert names == pre + [names[n]];
      forall k | k in LastPositions(names) && k != names[n]
        ensures names[LastPositions(names)[k]] == k
      {
        assert pre[LastPositions(pre)[k]] == names[LastPositions(pre)[k]];
      }
    }
  }

  /** The map headerIndex builds from a header row. */
  function HeaderMap(hdr: seq<string>): (m: map<string, nat>)
    ensures forall k :: k in m ==> m[k] < |hdr|
  {
    LastPositions(Trimmed(hdr))
  }

  /** Keys are exactly the trimmed header cells; a name maps to the LAST position carrying it. */
  lemma HeaderMapSpec(hdr: seq<string>)
    ensures forall k :: k in HeaderMap(hdr) <==> exists i :: 0 <= i < |hdr| && TrimSpace(hdr[i]) == k
    ensures forall k :: k in HeaderMap(hdr) ==>
              TrimSpace(hdr[HeaderMap(hdr)[k]]) == k &&
              forall j :: HeaderMap(hdr)[k] < j < |hdr| ==> TrimSpace(hdr[j]) != k
  {
    var t := Trimmed(hdr);
    LastPositionsSpec(t);
    forall k
      ensures k in t <==> exists i :: 0 <= i < |hdr| && TrimSpace(hdr[i]) == k
    {
      if k in t {
        var i :| 0 <= i < |t| && t[i] == k;
        assert TrimSpace(hdr[i]) == k;
      }
    }
  }

  /** headerIndex(hdr), as the loop over the header cells that fills the map. */
  method HeaderIndex(hdr: seq<string>) returns (m: map<string, nat>)
    ensures m == HeaderMap(hdr)
  {
    m := map[];
    var i := 0;
    ghost var t := Trimmed(hdr);
    while i < |hdr|
      invariant 0 <= i <= |hdr|
      invariant m == LastPositions(t[..i])
    {
      assert t[..i + 1][..i] == t[..i];
      m := m[TrimSpace(hdr[i]) := i];
      i := i + 1;
    }
    assert t[..i] == t;
  }

  /** The closure `index(hdr)` returns: the position of a column, or 0 when no header cell names it. */
  function Lookup(m: map<string, nat>, name: string): (i: nat)
    ensures name in m ==> i == m[name]
    ensures name !in m ==> i == 0
  {
    if name in m then m[name] else 0
  }

  /** An unknown column name reads column 0, and a known one reads a cell carrying that trimmed name. */
  lemma LookupSpec(hdr: seq<string>, name: string)
    ensures (forall i :: 0 <= i < |hdr| ==> TrimSpace(hdr[i]) != name) ==> Lookup(HeaderMap(hdr), name) == 0
    ensures (exists i :: 0 <= i < |hdr| && TrimSpace(hdr[i]) == name) ==>
              Lookup(HeaderMap(hdr), name) < |hdr| && TrimSpace(hdr[Lookup(HeaderMap(hdr), name)]) == name
  {
    HeaderMapSpec(hdr);
  }
}
