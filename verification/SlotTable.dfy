// Fixed tables of named slots, used or free, as finite maps with a capacity.
//
// The variables of both interpreters and the files of the overlay are kept in such tables.
module SlotTable {
  datatype Slot<V> = Slot(used: bool, name: string, value: V)

  predicate Distinct<V>(s: seq<Slot<V>>) {
    forall i, j :: 0 <= i < j < |s| && s[i].used && s[j].used ==> s[i].name != s[j].name
  }

  // The map that a table without repeated names stands for, slot by slot.
  function MapOf<V>(s: seq<Slot<V>>): (m: map<string, V>) {
    if |s| == 0 then map[]
    else
      var n := |s| - 1;
      if s[n].used then MapOf(s[..n])[s[n].name := s[n].value] else MapOf(s[..n])
  }

  predicate Full<V>(s: seq<Slot<V>>) {
    forall i :: 0 <= i < |s| ==> s[i].used
  }

  lemma {:induction false} AllFree<V>(s: seq<Slot<V>>)
    requires forall i :: 0 <= i < |s| ==> !s[i].used
    ensures Distinct(s) && MapOf(s) == map[]
  {
    if |s| > 0 {
      AllFree(s[..|s| - 1]);
    }
  }

  lemma {:induction false} Member<V>(s: seq<Slot<V>>, i: nat)
    requires Distinct(s) && i < |s| && s[i].used
    ensures s[i].name in MapOf(s) && MapOf(s)[s[i].name] == s[i].value
  {
    var n := |s| - 1;
    if i < n {
      Member(s[..n], i);
    }
  }

  lemma {:induction false} Owner<V>(s: seq<Slot<V>>, x: string) returns (i: nat)
    requires Distinct(s) && x in MapOf(s)
    ensures i < |s| && s[i].used && s[i].name == x && MapOf(s)[x] == s[i].value
  {
    var n := |s| - 1;
    if s[n].used && s[n].name == x {
      i := n;
    } else {
      i := Owner(s[..n], x);
    }
  }

  // Writing a slot whose name no other slot carries changes one entry of the map.
  lemma WriteSlot<V>(s: seq<Slot<V>>, i: nat, x: string, v: V)
    requires Distinct(s) && i < |s|
    requires if s[i].used then s[i].name == x else x !in MapOf(s)
    ensures var s' := s[i := Slot(true, x, v)]; Distinct(s') && MapOf(s') == MapOf(s)[x := v]
  {
    var s' := s[i := Slot(true, x, v)];
    assert Distinct(s') by {
      forall k | 0 <= k < |s| && k != i && s[k].used ensures s[k].name != x {
        Member(s, k);
      }
    }
    var m, m' := MapOf(s)[x := v], MapOf(s');
    forall y | y in m ensures y in m' && m'[y] == m[y] {
      if y == x {
        Member(s', i);
      } else {
        var k := Owner(s, y);
        Member(s', k);
      }
    }
    forall y | y in m' ensures y in m {
      var k := Owner(s', y);
      if k != i { Member(s, k); }
    }
  }

  // Freeing a slot removes its name.
  lemma FreeSlot<V>(s: seq<Slot<V>>, i: nat)
    requires Distinct(s) && i < |s| && s[i].used
    ensures var s' := s[i := s[i].(used := false)]; Distinct(s') && MapOf(s') == MapOf(s) - {s[i].name}
  {
    var s', x := s[i := s[i].(used := false)], s[i].name;
    var m, m' := MapOf(s) - {x}, MapOf(s');
    forall y | y in m ensures y in m' {
      OthersStay(s, s', i, y);
    }
    forall y | y in m' ensures y in m && m'[y] == m[y] {
      OthersStay(s, s', i, y);
      var k := Owner(s', y);
      Member(s, k);
    }
    assert m.Keys == m'.Keys;
  }

  lemma OthersStay<V>(s: seq<Slot<V>>, s': seq<Slot<V>>, i: nat, y: string)
    requires Distinct(s) && i < |s| && s[i].used && s' == s[i := s[i].(used := false)]
    ensures y in MapOf(s') <==> y in MapOf(s) && y != s[i].name
  {
    if y in MapOf(s') {
      var k := Owner(s', y);
      Member(s, k);
    }
    if y in MapOf(s) && y != s[i].name {
      var k := Owner(s, y);
      Member(s', k);
    }
  }

  // A table has a free slot exactly while its map is smaller than the table.
  lemma {:induction false} FullMeansFull<V>(s: seq<Slot<V>>)
    requires Distinct(s)
    ensures |MapOf(s)| <= |s|
    ensures Full(s) <==> |MapOf(s)| == |s|
  {
    if |s| == 0 {
      assert MapOf(s) == map[];
    } else {
      var n := |s| - 1;
      FullMeansFull(s[..n]);
      LastSlot(s);
      FullLast(s);
    }
  }

  lemma FullLast<V>(s: seq<Slot<V>>)
    requires |s| > 0
    ensures Full(s) <==> Full(s[..|s| - 1]) && s[|s| - 1].used
  {
    if Full(s[..|s| - 1]) {
      assert forall i :: 0 <= i < |s| - 1 ==> s[..|s| - 1][i] == s[i];
    }
  }

  lemma LastSlot<V>(s: seq<Slot<V>>)
    requires Distinct(s) && |s| > 0
    ensures var n := |s| - 1;
      |MapOf(s)| == |MapOf(s[..n])| + if s[n].used then 1 else 0
  {
    var n := |s| - 1;
    if s[n].used && s[n].name in MapOf(s[..n]) {
      var k := Owner(s[..n], s[n].name);
      assert false;
    }
  }
}
