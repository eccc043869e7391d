/** What a drawn trekking guarantees to the people on its roster, and how the roster
    edits relate to one another. */
module DrawProperties {
  import opened Errors
  import opened Lootjestrekken

  /** On a roster without repeated names, the first position of every entry is its own. */
  lemma FirstIndexOfDistinct(s: seq<string>, k: nat)
    requires Distinct(s) && k < |s|
    ensures FirstIndex(s, s[k]) == k
  {
  }

  /** After a draw over distinct names, every participant can look up whom they drew,
      that person is on the roster, and it is never the participant themselves. */
  lemma LookupAfterDraw(t: Trekking, sigma: seq<nat>, p: string)
    requires Deranges(t.people, t.peopleMapping, sigma)
    requires Distinct(t.people) && 2 <= |t.people| && p in t.people
    ensures GetrokkenPerson(t, p).1 == None
    ensures GetrokkenPerson(t, p).0 in t.people
    ensures GetrokkenPerson(t, p).0 != p
  {
    var k := FirstIndex(t.people, p);
    assert GetrokkenPerson(t, p) == (t.peopleMapping[k], None);
    assert t.peopleMapping[k] == t.people[sigma[k]];
    assert sigma[k] != k;
  }

  /** Two different participants never draw the same person. */
  lemma LookupInjective(t: Trekking, sigma: seq<nat>, p: string, q: string)
    requires Deranges(t.people, t.peopleMapping, sigma)
    requires Distinct(t.people) && p in t.people && q in t.people && p != q
    ensures GetrokkenPerson(t, p).0 != GetrokkenPerson(t, q).0
  {
    var kp, kq := FirstIndex(t.people, p), FirstIndex(t.people, q);
    assert GetrokkenPerson(t, p) == (t.peopleMapping[kp], None);
    assert GetrokkenPerson(t, q) == (t.peopleMapping[kq], None);
    assert kp != kq by {
      assert t.people[kp] == p && t.people[kq] == q;
    }
    var dp, dq := sigma[kp], sigma[kq];
    assert dp != dq by {
      if kp < kq { assert sigma[kp] != sigma[kq]; } else { assert sigma[kq] != sigma[kp]; }
    }
    assert dp < |t.people| && dq < |t.people|;
    assert t.people[dp] != t.people[dq] by {
      if dp < dq { assert t.people[dp] != t.people[dq]; } else { assert t.people[dq] != t.people[dp]; }
    }
    assert t.peopleMapping[kp] == t.people[dp] && t.peopleMapping[kq] == t.people[dq];
  }

  /** A draw over a roster of at least two distinct names, followed by a lookup: the
      participant finds, without error, someone else from the roster they built. */
  method DrawThenLookup(t: Trekking, p: string) returns (drawn: Trekking, got: string, err: Option<Error>)
    requires Distinct(t.people) && 2 <= |t.people| && p in t.people
    ensures drawn.getrokken && multiset(drawn.people) == multiset(t.people)
    ensures err == None && got in t.people && got != p
  {
    ghost var sigma;
    drawn, sigma := Trek(t);
    assert p in multiset(drawn.people);
    LookupAfterDraw(drawn, sigma, p);
    got, err := GetrokkenPerson(drawn, p).0, GetrokkenPerson(drawn, p).1;
    assert got in multiset(drawn.people);
  }

  /** Every participant is drawn by someone; with LookupInjective, by exactly one. */
  lemma LookupCovers(t: Trekking, sigma: seq<nat>, q: string)
    requires Deranges(t.people, t.peopleMapping, sigma)
    requires Distinct(t.people) && q in t.people
    ensures exists p :: p in t.people && GetrokkenPerson(t, p) == (q, None)
  {
    assert q in multiset(t.peopleMapping);
    var k :| 0 <= k < |t.peopleMapping| && t.peopleMapping[k] == q;
    var p := t.people[k];
    FirstIndexOfDistinct(t.people, k);
    assert GetrokkenPerson(t, p) == (q, None);
  }

  /** With distinct names, no position of the mapping repeats the roster entry beside it. */
  lemma DistinctNamesNeverDrawThemselves(arr: seq<string>, r: seq<string>, sigma: seq<nat>, k: nat)
    requires Deranges(arr, r, sigma) && Distinct(arr) && 2 <= |arr| && k < |arr|
    ensures r[k] != arr[k]
  {
    assert r[k] == arr[sigma[k]];
    if sigma[k] < k {
      assert arr[sigma[k]] != arr[k];
    } else {
      assert sigma[k] != k;
      assert arr[k] != arr[sigma[k]];
    }
  }

  /** Repeated names are not rejected, and then the no-fixed-point guarantee holds by
      position only: every derangement of ["a", "a", "b"] gives one of the two people
      named "a" a person named "a". */
  lemma RepeatedNamesCanMatch(r: seq<string>, sigma: seq<nat>)
    requires Deranges(["a", "a", "b"], r, sigma)
    ensures r[0] == "a" || r[1] == "a"
  {
    var arr := ["a", "a", "b"];
    assert sigma[0] != 0 && sigma[0] < 3;
    if sigma[0] == 2 {
      assert sigma[1] != 1 && sigma[1] != sigma[0];
      assert r[1] == arr[sigma[1]] == arr[0];
    } else {
      assert r[0] == arr[1];
    }
  }

  /** Removing a name right after adding it restores the roster when the name was new;
      when it was already there, an earlier copy goes, so the same people remain. */
  lemma AddThenRemove(t: Trekking, x: string)
    ensures x !in t.people ==> RemovedFirst(AddPerson(t, x).people, x) == t.people
    ensures multiset(RemovedFirst(AddPerson(t, x).people, x)) == multiset(t.people)
  {
    var s := AddPerson(t, x).people;
    assert s == t.people + [x];
    assert x in s;
    var k := FirstIndex(s, x);
    if x !in t.people {
      assert k == |t.people|;
      assert s[..k] == t.people;
    } else {
      assert multiset(s) == multiset(t.people) + multiset{x};
    }
  }
}
