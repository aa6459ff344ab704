/** `M6PupillList`: an ordered list of pupil records. */
module PupilLists {
  import opened Results
  import opened Pupils
  import opened Grouping

  /** The subscript of `lst[item]`: an index, or a slice of step 1. */
  datatype Subscript = Index(i: int) | Slice(start: Option<int>, stop: Option<int>)

  /** What `lst[item]` returns: a record, or a new list for a slice. */
  datatype Item = Record(p: Pupil) | Records(list: PupilList)

  /** Whether a record has the given `az` and `derot`. */
  predicate Matches(p: Pupil, az: real, derot: real) {
    p.Az() == az && p.Derot() == derot
  }

  /** The first record of `s` with the given `az` and `derot`. */
  function FirstMatch(s: seq<Pupil>, az: real, derot: real): Option<Pupil> {
    if s == [] then None
    else if Matches(s[0], az, derot) then Some(s[0])
    else FirstMatch(s[1..], az, derot)
  }

  /** `FirstMatch` finds nothing exactly when no record matches, and
      otherwise a matching record preceded by no matching one. */
  lemma {:induction false} FirstMatchIsFirst(s: seq<Pupil>, az: real, derot: real)
    ensures FirstMatch(s, az, derot).None? <==> forall i :: 0 <= i < |s| ==> !Matches(s[i], az, derot)
    ensures FirstMatch(s, az, derot).Some? ==>
              exists i :: 0 <= i < |s| && s[i] == FirstMatch(s, az, derot).value && Matches(s[i], az, derot)
                          && forall j :: 0 <= j < i ==> !Matches(s[j], az, derot)
  {
    if s != [] && !Matches(s[0], az, derot) {
      FirstMatchIsFirst(s[1..], az, derot);
      if FirstMatch(s, az, derot).Some? {
        var i :| 0 <= i < |s[1..]| && s[1..][i] == FirstMatch(s, az, derot).value && Matches(s[1..][i], az, derot)
                 && forall j :: 0 <= j < i ==> !Matches(s[1..][j], az, derot);
        assert s[i + 1] == s[1..][i];
        forall j | 0 <= j < i + 1 ensures !Matches(s[j], az, derot) {
          if j > 0 { assert s[j] == s[1..][j - 1]; }
        }
      } else {
        forall i | 0 <= i < |s| ensures !Matches(s[i], az, derot) {
          if i > 0 { assert s[i] == s[1..][i - 1]; }
        }
      }
    }
  }

  class PupilList {
    var lst: seq<Pupil>

    /** `M6PupillList(iterable)`. */
    constructor (items: seq<Pupil>)
      ensures lst == items
    {
      lst := items;
    }

    /** `len(lst)`. */
    function Length(): (n: nat)
      reads this
      ensures n == |lst|
    {
      |lst|
    }

    method Append(p: Pupil)
      modifies this`lst
      ensures lst == old(lst) + [p]
      ensures Length() == old(Length()) + 1 && lst[..old(Length())] == old(lst)
    {
      lst := lst + [p];
    }

    method Extend(items: seq<Pupil>)
      modifies this`lst
      ensures lst == old(lst) + items
      ensures Length() == old(Length()) + |items| && lst[..old(Length())] == old(lst)
    {
      lst := lst + items;
    }

    /** The loop of `byKey`: `items.setdefault(p.header[key], M6PupillList([])).append(p)`
        for every record in order. */
    method Partition(key: string) returns (r: Result<map<real, PupilList>>)
      ensures r.Err? <==> !AllHaveKey(lst, key)
      ensures r.Err? ==> r.error == HeaderKeyError(key)
      ensures r.Ok? ==> AllHaveKey(lst, key) && r.value.Keys == KeySet(lst, key)
      ensures r.Ok? ==> forall k :: k in r.value ==> fresh(r.value[k]) && r.value[k].lst == Group(lst, key, k)
      ensures r.Ok? ==> forall k1, k2 :: k1 in r.value && k2 in r.value && k1 != k2 ==> r.value[k1] != r.value[k2]
    {
      var items: map<real, PupilList> := map[];
      for i := 0 to |lst|
        invariant AllHaveKey(lst[..i], key)
        invariant items.Keys == KeySet(lst[..i], key)
        invariant forall k :: k in items ==> fresh(items[k]) && items[k].lst == Group(lst[..i], key, k)
        invariant forall k1, k2 :: k1 in items && k2 in items && k1 != k2 ==> items[k1] != items[k2]
      {
        var p := lst[i];
        if key !in p.header {
          assert !AllHaveKey(lst, key) by {
            assert key !in lst[i].header;
          }
          return Err(HeaderKeyError(key));
        }
        var k := p.header[key];
        assert lst[..i + 1] == lst[..i] + [p];
        GroupAppendAll(lst[..i], p, key);
        if k !in items {
          KeySetIff(lst[..i], key, k);
          var group := new PupilList([]);
          items := items[k := group];
        }
        label before:
        items[k].Append(p);
        assert forall k' :: k' in items && k' != k ==> items[k'].lst == old@before(items[k'].lst);
      }
      assert lst[..|lst|] == lst;
      r := Ok(items);
    }

    /** `byKey(key, nMin)`: a new list per value of `key`, holding the
        records with that value in their order, without the lists shorter
        than `nMin`; fails when a record has no `key`. */
    method ByKey(key: string, nMin: int) returns (r: Result<map<real, PupilList>>)
      ensures r.Err? <==> !AllHaveKey(lst, key)
      ensures r.Err? ==> r.error == HeaderKeyError(key)
      ensures r.Ok? ==> AllHaveKey(lst, key) && r.value.Keys == Kept(lst, key, nMin)
      ensures r.Ok? ==> forall k :: k in r.value ==> fresh(r.value[k]) && r.value[k].lst == Group(lst, key, k)
      ensures r.Ok? ==> forall k1, k2 :: k1 in r.value && k2 in r.value && k1 != k2 ==> r.value[k1] != r.value[k2]
    {
      r := Partition(key);
      if r.Ok? {
        var items := r.value;
        if nMin > 1 {
          items := map k | k in items && |items[k].lst| >= nMin :: items[k];
        } else {
          KeptAll(lst, key, nMin);
        }
        r := Ok(items);
      }
    }

    method ByAt() returns (r: Result<map<real, PupilList>>)
      ensures r.Ok? && r.value.Keys == KeySet(lst, "at")
      ensures forall k :: k in r.value ==> fresh(r.value[k]) && r.value[k].lst == Group(lst, "at", k)
    {
      r := ByKey("at", 1);
      KeptAll(lst, "at", 1);
    }

    method ByAz() returns (r: Result<map<real, PupilList>>)
      ensures r.Ok? && r.value.Keys == Kept(lst, "az", 2)
      ensures forall k :: k in r.value ==> fresh(r.value[k]) && r.value[k].lst == Group(lst, "az", k)
    {
      r := ByKey("az", 2);
    }

    method ByDerot() returns (r: Result<map<real, PupilList>>)
      ensures r.Ok? && r.value.Keys == Kept(lst, "derot", 2)
      ensures forall k :: k in r.value ==> fresh(r.value[k]) && r.value[k].lst == Group(lst, "derot", k)
    {
      r := ByKey("derot", 2);
    }

    /** `increasingKey(key)`: a new list sorted stably by `key`. */
    method IncreasingKey(key: string) returns (r: Result<PupilList>)
      ensures r.Err? <==> !AllHaveKey(lst, key)
      ensures r.Err? ==> r.error == HeaderKeyError(key)
      ensures r.Ok? ==> AllHaveKey(lst, key) && fresh(r.value) && r.value.lst == SortByKey(lst, key)
    {
      if !AllHaveKey(lst, key) {
        return Err(HeaderKeyError(key));
      }
      var sorted := new PupilList(SortByKey(lst, key));
      r := Ok(sorted);
    }

    method IncreasingAz() returns (r: Result<PupilList>)
      ensures r.Ok? && fresh(r.value) && r.value.lst == SortByKey(lst, "az")
    {
      r := IncreasingKey("az");
    }

    method IncreasingDerot() returns (r: Result<PupilList>)
      ensures r.Ok? && fresh(r.value) && r.value.lst == SortByKey(lst, "derot")
    {
      r := IncreasingKey("derot");
    }

    /** `find(az, derot)` as written: the loop binds `P` but reads `p`, which
        is bound nowhere, so it returns none for an empty list and raises on
        the first record of any other. */
    function FindAsWritten(az: real, derot: real): (r: Result<Option<Pupil>>)
      reads this
      ensures r.Ok? <==> lst == []
      ensures r.Ok? ==> r.value.None?
      ensures r.Err? ==> r.error == NameError("p")
    {
      if lst == [] then Ok(None) else Err(NameError("p"))
    }

    /** `find(az, derot)` as intended: the first record with that `az` and
        `derot`, none when there is none. */
    method Find(az: real, derot: real) returns (r: Option<Pupil>)
      ensures r == FirstMatch(lst, az, derot)
      ensures r.None? <==> forall i :: 0 <= i < |lst| ==> !Matches(lst[i], az, derot)
      ensures r.Some? ==> exists i :: 0 <= i < |lst| && lst[i] == r.value && Matches(lst[i], az, derot)
                                   && forall j :: 0 <= j < i ==> !Matches(lst[j], az, derot)
    {
      for i := 0 to |lst|
        invariant forall j :: 0 <= j < i ==> !Matches(lst[j], az, derot)
        invariant FirstMatch(lst[i..], az, derot) == FirstMatch(lst, az, derot)
      {
        assert lst[i..][1..] == lst[i + 1..];
        if Matches(lst[i], az, derot) {
          return Some(lst[i]);
        }
      }
      return None;
    }

    /** `lst[item]`: an index gives the record (counting from the end when
        negative) or fails out of range; a slice gives a new list. */
    method GetItem(item: Subscript) returns (r: Result<Item>)
      ensures item.Index? ==> (r.Ok? <==> ElementAt(lst, item.i).Ok?)
      ensures item.Index? && r.Ok? ==> r.value == Record(ElementAt(lst, item.i).value)
      ensures item.Index? && r.Err? ==> r.error == IndexError
      ensures item.Slice? ==> r.Ok? && r.value.Records? && fresh(r.value.list)
                              && r.value.list.lst == SliceOf(lst, item.start, item.stop)
    {
      match item
      case Index(i) =>
        var e := ElementAt(lst, i);
        if e.Err? {
          return Err(e.error);
        }
        r := Ok(Record(e.value));
      case Slice(start, stop) =>
        var sub := new PupilList(SliceOf(lst, start, stop));
        r := Ok(Records(sub));
    }
  }

  /** As written, `find` raises on every list holding a record that is
      sought, where the intended search returns the first such record. */
  lemma FindAsWrittenMisses(l: PupilList, i: nat, az: real, derot: real)
    requires i < |l.lst| && Matches(l.lst[i], az, derot)
    ensures l.FindAsWritten(az, derot) == Err(NameError("p"))
    ensures FirstMatch(l.lst, az, derot).Some?
  {
    FirstMatchIsFirst(l.lst, az, derot);
  }
}
