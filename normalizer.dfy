/**
 * The token-substitution pass `convert`: each entry of the conversion table,
 * in the table's order, replaces every occurrence of its key in the command.
 */
module Normalizer {
  import opened PyStrings

  /** The conversion table: the (key, replacement) pairs of the JSON object, in insertion order. */
  type Table = seq<(string, string)>

  /** The string after applying the table's entries from first to last. */
  function ConvertAll(s: string, table: Table): string
    decreases |table|
  {
    if table == [] then s
    else ConvertAll(Replace(s, table[0].0, table[0].1), table[1..])
  }

  /** The loop of `convert`: `s` is reassigned once per table entry. */
  method Convert(s: string, table: Table) returns (r: string)
    ensures r == ConvertAll(s, table)
  {
    r := s;
    for i := 0 to |table|
      invariant ConvertAll(r, table[i..]) == ConvertAll(s, table)
    {
      assert table[i..][1..] == table[i + 1..];
      var (key, rep) := table[i];
      r := Replace(r, key, rep);
    }
    assert table[|table|..] == [];
  }

  /** Entries are applied in table order: converting by `t1 + t2` is converting by `t1`, then by `t2`. */
  lemma {:induction false} ConvertInOrder(s: string, t1: Table, t2: Table)
    ensures ConvertAll(s, t1 + t2) == ConvertAll(ConvertAll(s, t1), t2)
    decreases |t1|
  {
    if t1 == [] {
      assert t1 + t2 == t2;
    } else {
      assert (t1 + t2)[1..] == t1[1..] + t2;
      ConvertInOrder(Replace(s, t1[0].0, t1[0].1), t1[1..], t2);
    }
  }

  /** One entry replaces every occurrence of its key: the key-free pieces of the string, glued with the value. */
  lemma ConvertOneEntry(s: string, key: string, val: string)
    requires key != []
    ensures ConvertAll(s, [(key, val)]) == Join(val, Split(s, key))
    ensures forall p :: p in Split(s, key) ==> !Occurs(p, key)
    ensures Join(key, Split(s, key)) == s
  {
    SplitPiecesAreFree(s, key);
    JoinSplit(s, key);
  }

  /**
   * A table none of whose keys occurs in the command leaves it unchanged;
   * in particular the empty table does.
   */
  lemma {:induction false} ConvertAbsentKeys(s: string, table: Table)
    requires forall i :: 0 <= i < |table| ==> !Occurs(s, table[i].0)
    ensures ConvertAll(s, table) == s
    decreases |table|
  {
    if table != [] {
      ReplaceAbsent(s, table[0].0, table[0].1);
      ConvertAbsentKeys(s, table[1..]);
    }
  }

  /** A table whose entries map every key to itself leaves every command unchanged. */
  lemma {:induction false} ConvertIdentityTable(s: string, table: Table)
    requires forall i :: 0 <= i < |table| ==> table[i].0 == table[i].1
    ensures ConvertAll(s, table) == s
    decreases |table|
  {
    if table != [] {
      ReplaceSelf(s, table[0].0);
      ConvertIdentityTable(s, table[1..]);
    }
  }

  /** Order matters when one entry's value is another entry's key. */
  lemma ConvertOrderMatters()
    ensures ConvertAll("a", [("a", "b"), ("b", "c")]) == "c"
    ensures ConvertAll("a", [("b", "c"), ("a", "b")]) == "b"
  {
    assert Replace("a", "a", "b") == "b" by {
      assert "a"[1..] == [];
      assert Replace([], "a", "b") == [];
    }
    assert Replace("b", "b", "c") == "c" by {
      assert "b"[1..] == [];
      assert Replace([], "b", "c") == [];
    }
    assert Replace("a", "b", "c") == "a" by {
      assert "a"[1..] == [];
      assert Replace([], "b", "c") == [];
    }
    var t1: Table := [("a", "b"), ("b", "c")];
    var t2: Table := [("b", "c"), ("a", "b")];
    assert t1[1..] == [("b", "c")] && t1[1..][1..] == [];
    assert t2[1..] == [("a", "b")] && t2[1..][1..] == [];
  }
}
