/**
 * The column order of a CSV document and the projection of a record onto it:
 * `get_data_csv_key_list` and `get_values_sorted`.
 */
module CsvKeys {
  import opened Wrappers
  import opened PyValues
  import opened StringOrder

  const DateCreated: string := "date_created"

  /** The columns of a CSV document for records with these keys:
    * `date_created` first, then the other keys in ascending order. */
  ghost function CsvKeyOrder(keys: set<string>): (r: seq<string>)
    requires DateCreated in keys
    ensures |r| == |keys| && r[0] == DateCreated
    ensures forall k :: k in r <==> k in keys
    ensures NoDuplicates(r)
    ensures StrictlySorted(r[1..])
  {
    var rest := SortedKeys(keys - {DateCreated});
    assert |keys - {DateCreated}| == |keys| - 1;
    var r := [DateCreated] + rest;
    assert r[1..] == rest;
    StrictlySortedIsDistinct(rest);
    r
  }

  /** `dict.keys()`: every key once, in an order the model leaves open. */
  method DictKeys<V>(d: map<string, V>) returns (keys: seq<string>)
    ensures NoDuplicates(keys)
    ensures forall k :: k in keys <==> k in d
  {
    keys := [];
    var rest := d.Keys;
    while rest != {}
      invariant rest <= d.Keys
      invariant NoDuplicates(keys)
      invariant forall k :: k in keys <==> k in d && k !in rest
      decreases |rest|
    {
      var k :| k in rest;
      keys := keys + [k];
      rest := rest - {k};
    }
  }

  /** The position of the first occurrence of `x`. */
  function IndexOf(s: seq<string>, x: string): (i: nat)
    requires x in s
    ensures i < |s| && s[i] == x && x !in s[..i]
  {
    if s[0] == x then 0
    else
      var j := IndexOf(s[1..], x);
      assert s[..j + 1] == [s[0]] + s[1..][..j];
      j + 1
  }

  /** `list.remove(x)`: drops the first occurrence of `x`; ValueError when there is none. */
  function RemoveFirst(s: seq<string>, x: string): (r: Result<seq<string>, Error>)
    ensures r.Failure? <==> x !in s
    ensures r.Failure? ==> r.error == NotInList(x)
    ensures r.Success? ==> exists i :: 0 <= i < |s| && s[i] == x && x !in s[..i] && r.value == s[..i] + s[i + 1..]
    ensures r.Success? ==> multiset(r.value) + multiset{x} == multiset(s)
  {
    if x !in s then Failure(NotInList(x))
    else
      var i := IndexOf(s, x);
      assert s == s[..i] + [x] + s[i + 1..];
      assert 0 <= i < |s| && s[i] == x && x !in s[..i];
      Success(s[..i] + s[i + 1..])
  }

  /** Where each remaining element of `s[..i] + s[i + 1..]` came from. */
  lemma DropAt(s: seq<string>, i: nat, t: seq<string>)
    requires i < |s| && t == s[..i] + s[i + 1..]
    ensures |t| == |s| - 1
    ensures forall a :: 0 <= a < i ==> t[a] == s[a]
    ensures forall a :: i <= a < |t| ==> t[a] == s[a + 1]
  {
  }

  /** Removing one key from a list without duplicates leaves the other keys, once each. */
  lemma RemoveFirstFromDistinct(s: seq<string>, x: string)
    requires NoDuplicates(s) && x in s
    ensures RemoveFirst(s, x).Success?
    ensures NoDuplicates(RemoveFirst(s, x).value)
    ensures forall k :: k in RemoveFirst(s, x).value <==> k in s && k != x
  {
    var i := IndexOf(s, x);
    var t := s[..i] + s[i + 1..];
    assert RemoveFirst(s, x).value == t;
    DropAt(s, i, t);
    assert NoDuplicates(t) by {
      forall a, b | 0 <= a < b < |t| ensures t[a] != t[b] {
        assert t[a] == s[if a < i then a else a + 1];
        assert t[b] == s[if b < i then b else b + 1];
      }
    }
    forall k ensures k in t <==> k in s && k != x {
      if k in t {
        var a :| 0 <= a < |t| && t[a] == k;
        assert s[if a < i then a else a + 1] == k;
      }
      if k in s && k != x {
        var a :| 0 <= a < |s| && s[a] == k;
        assert a != i;
        var a' := if a < i then a else a - 1;
        assert t[a'] == k;
      }
    }
  }

  /** Members of a list are the members of its multiset. */
  lemma SameMultisetSameMembers(s: seq<string>, t: seq<string>)
    requires multiset(s) == multiset(t)
    ensures forall k :: k in s <==> k in t
  {
    forall k ensures k in s <==> k in t {
      assert k in s <==> k in multiset(s);
      assert k in t <==> k in multiset(t);
    }
  }

  /** `get_data_csv_key_list`: the record's keys with `date_created` moved to
    * the front and the rest sorted, whatever order the dictionary yields
    * them in; ValueError when there is no `date_created` key. */
  method CsvKeyList<V>(params: map<string, V>) returns (r: Result<seq<string>, Error>)
    ensures r.Failure? <==> DateCreated !in params
    ensures r.Failure? ==> r.error == NotInList(DateCreated)
    ensures r.Success? ==> r.value == CsvKeyOrder(params.Keys)
  {
    var keys := DictKeys(params);
    var removed := RemoveFirst(keys, DateCreated);
    if removed.Failure? {
      return Failure(removed.error);
    }
    RemoveFirstFromDistinct(keys, DateCreated);
    var others := removed.value;
    var sorted := Sort(others);
    PermutationKeepsDistinct(others, sorted);
    SortedDistinctIsStrict(sorted);
    SameMultisetSameMembers(others, sorted);
    StrictlySortedUnique(sorted, SortedKeys(params.Keys - {DateCreated}));
    keys := [DateCreated] + sorted;
    r := Success(keys);
  }

  /** The values of a record under the given keys, in the keys' order. */
  function Project<V>(keys: seq<string>, params: map<string, V>): (r: seq<V>)
    requires forall i :: 0 <= i < |keys| ==> keys[i] in params
    ensures |r| == |keys|
    ensures forall i :: 0 <= i < |keys| ==> r[i] == params[keys[i]]
  {
    seq(|keys|, i requires 0 <= i < |keys| => params[keys[i]])
  }

  /** `get_values_sorted`: looks up every key in order; KeyError at the
    * first key the record does not hold. */
  method ValuesInKeyOrder<V>(keys: seq<string>, params: map<string, V>) returns (r: Result<seq<V>, Error>)
    ensures r.Success? <==> forall i :: 0 <= i < |keys| ==> keys[i] in params
    ensures r.Success? ==> |r.value| == |keys| && forall i :: 0 <= i < |keys| ==> r.value[i] == params[keys[i]]
    ensures r.Failure? ==> exists i :: 0 <= i < |keys| && keys[i] !in params && r.error == KeyError(keys[i])
                                      && forall j :: 0 <= j < i ==> keys[j] in params
  {
    var data: seq<V> := [];
    for i := 0 to |keys|
      invariant |data| == i
      invariant forall j :: 0 <= j < i ==> keys[j] in params && data[j] == params[keys[j]]
    {
      if keys[i] !in params {
        return Failure(KeyError(keys[i]));
      }
      data := data + [params[keys[i]]];
    }
    r := Success(data);
  }
}
