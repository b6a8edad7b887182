/**
 The role whitelist is an ordered list of role ids. `roles add` appends an id
 only when `indexOf` does not find it; `roles remove` splices out the first
 occurrence `indexOf` finds. The list comes from the configuration file, so it
 may hold duplicates; the add path never creates one.
 */
module Whitelist {

  /** Role ids are Discord snowflakes, kept as text. */
  type RoleId = string

  predicate NoDup(s: seq<RoleId>)
  {
    forall i, j :: 0 <= i < j < |s| ==> s[i] != s[j]
  }

  /** `s.indexOf(x)`: the first index holding x, or -1. */
  function IndexOf(s: seq<RoleId>, x: RoleId): (i: int)
    ensures -1 <= i < |s|
    ensures i == -1 <==> x !in s
    ensures 0 <= i ==> s[i] == x && x !in s[..i]
  {
    if s == [] then -1
    else if s[0] == x then 0
    else
      var k := IndexOf(s[1..], x);
      assert s[1..][..if k < 0 then 0 else k] == s[1..1 + if k < 0 then 0 else k];
      if k == -1 then -1 else k + 1
  }

  /** One `add`: append when absent. */
  function AddRole(roles: seq<RoleId>, r: RoleId): (s: seq<RoleId>)
    ensures r in s && |s| <= |roles| + 1
    ensures forall x :: x in s <==> x in roles || x == r
  {
    if r in roles then roles else roles + [r]
  }

  /** The adds for the mentioned roles `rs`, in order. */
  function AddAll(roles: seq<RoleId>, rs: seq<RoleId>): (s: seq<RoleId>)
    ensures |s| <= |roles| + |rs|
  {
    if rs == [] then roles else AddRole(AddAll(roles, rs[..|rs| - 1]), rs[|rs| - 1])
  }

  /** One `remove`: drop the first occurrence, keep the rest in order. */
  function RemoveFirst(roles: seq<RoleId>, r: RoleId): (s: seq<RoleId>)
    ensures |s| <= |roles|
    ensures forall x :: x in s ==> x in roles
  {
    if roles == [] then []
    else if roles[0] == r then roles[1..]
    else [roles[0]] + RemoveFirst(roles[1..], r)
  }

  /** The removes for the mentioned roles `rs`, in order. */
  function RemoveAll(roles: seq<RoleId>, rs: seq<RoleId>): (s: seq<RoleId>)
    ensures forall x :: x in s ==> x in roles
  {
    if rs == [] then roles else RemoveFirst(RemoveAll(roles, rs[..|rs| - 1]), rs[|rs| - 1])
  }

  /** `splice(indexOf(r), 1)` is RemoveFirst: exactly the element at the first
      occurrence goes, everything before and after stays in order. */
  lemma {:induction false} SpliceIsRemoveFirst(roles: seq<RoleId>, r: RoleId)
    requires r in roles
    ensures RemoveFirst(roles, r) == roles[..IndexOf(roles, r)] + roles[IndexOf(roles, r) + 1..]
  {
    if roles[0] != r {
      SpliceIsRemoveFirst(roles[1..], r);
      var k := IndexOf(roles[1..], r);
      assert roles[1..][..k] == roles[1..k + 1];
      assert roles[1..][k + 1..] == roles[k + 2..];
      assert [roles[0]] + roles[1..k + 1] == roles[..k + 1];
    }
  }

  /** Removing an absent role changes nothing; removing a present one shortens
      the list by exactly one. */
  lemma {:induction false} RemoveFirstLength(roles: seq<RoleId>, r: RoleId)
    ensures r !in roles ==> RemoveFirst(roles, r) == roles
    ensures r in roles ==> |RemoveFirst(roles, r)| == |roles| - 1
  {
    if roles != [] && roles[0] != r {
      RemoveFirstLength(roles[1..], r);
      assert [roles[0]] + roles[1..] == roles;
    }
  }

  /** On a duplicate-free list, RemoveFirst removes r and nothing else and
      keeps the list duplicate-free. */
  lemma {:induction false} RemoveFirstMembers(roles: seq<RoleId>, r: RoleId)
    requires NoDup(roles)
    ensures NoDup(RemoveFirst(roles, r))
    ensures forall x :: x in RemoveFirst(roles, r) <==> x in roles && x != r
  {
    if roles != [] {
      assert NoDup(roles[1..]);
      if roles[0] != r {
        RemoveFirstMembers(roles[1..], r);
        assert roles[0] !in roles[1..];
        var t := RemoveFirst(roles[1..], r);
        var u := [roles[0]] + t;
        forall i, j | 0 <= i < j < |u| ensures u[i] != u[j] {
          assert u[j] == t[j - 1] && t[j - 1] in t;
          if 0 < i {
            assert u[i] == t[i - 1];
          }
        }
      } else {
        assert roles[0] !in roles[1..];
        assert roles == [roles[0]] + roles[1..];
      }
    }
  }

  /** Adding never loses or reorders a role: the old list is a prefix. */
  lemma {:induction false} AddAllExtends(roles: seq<RoleId>, rs: seq<RoleId>)
    ensures |AddAll(roles, rs)| >= |roles|
    ensures AddAll(roles, rs)[..|roles|] == roles
  {
    if rs != [] {
      AddAllExtends(roles, rs[..|rs| - 1]);
    }
  }

  /** After the adds, a role is whitelisted iff it was before or was mentioned. */
  lemma {:induction false} AddAllMembers(roles: seq<RoleId>, rs: seq<RoleId>)
    ensures forall x :: x in AddAll(roles, rs) <==> x in roles || x in rs
  {
    if rs != [] {
      AddAllMembers(roles, rs[..|rs| - 1]);
      assert rs == rs[..|rs| - 1] + [rs[|rs| - 1]];
    }
  }

  /** `roles add` keeps the whitelist duplicate-free. */
  lemma {:induction false} AddAllNoDup(roles: seq<RoleId>, rs: seq<RoleId>)
    requires NoDup(roles)
    ensures NoDup(AddAll(roles, rs))
  {
    if rs != [] {
      AddAllNoDup(roles, rs[..|rs| - 1]);
    }
  }

  /** The adds change the whitelist iff some mentioned role was absent. */
  lemma {:induction false} AddAllChanged(roles: seq<RoleId>, rs: seq<RoleId>)
    ensures AddAll(roles, rs) != roles <==> exists i :: 0 <= i < |rs| && rs[i] !in roles
  {
    AddAllMembers(roles, rs);
    AddAllExtends(roles, rs);
    if AddAll(roles, rs) != roles {
      assert |AddAll(roles, rs)| > |roles|;
      // the first appended role was appended only because it was absent
      var x := AddAll(roles, rs)[|roles|];
      AddAllFirstNew(roles, rs);
      assert x !in roles && x in AddAll(roles, rs);
      AddAllMembers(roles, rs);
      assert x in rs;
      var i :| 0 <= i < |rs| && rs[i] == x;
    } else {
      forall i | 0 <= i < |rs| ensures rs[i] in roles {
        assert rs[i] in AddAll(roles, rs);
      }
    }
  }

  /** Every appended role was absent from the original list. */
  lemma {:induction false} AddAllFirstNew(roles: seq<RoleId>, rs: seq<RoleId>)
    ensures forall k :: |roles| <= k < |AddAll(roles, rs)| ==> AddAll(roles, rs)[k] !in roles
  {
    if rs != [] {
      AddAllFirstNew(roles, rs[..|rs| - 1]);
      AddAllExtends(roles, rs[..|rs| - 1]);
    }
  }

  /** Adding the same roles a second time changes nothing. */
  lemma AddAllIdempotent(roles: seq<RoleId>, rs: seq<RoleId>)
    ensures AddAll(AddAll(roles, rs), rs) == AddAll(roles, rs)
  {
    AddAllMembers(roles, rs);
    AddAllChanged(AddAll(roles, rs), rs);
  }

  /** The removes shorten the list by one for each removal and never grow it. */
  lemma {:induction false} RemoveAllShrinks(roles: seq<RoleId>, rs: seq<RoleId>)
    ensures |RemoveAll(roles, rs)| <= |roles|
  {
    if rs != [] {
      RemoveAllShrinks(roles, rs[..|rs| - 1]);
      RemoveFirstLength(RemoveAll(roles, rs[..|rs| - 1]), rs[|rs| - 1]);
    }
  }

  /** On a duplicate-free whitelist, after the removes a role is whitelisted
      iff it was before and was not mentioned, and the list stays
      duplicate-free. */
  lemma {:induction false} RemoveAllMembers(roles: seq<RoleId>, rs: seq<RoleId>)
    requires NoDup(roles)
    ensures NoDup(RemoveAll(roles, rs))
    ensures forall x :: x in RemoveAll(roles, rs) <==> x in roles && x !in rs
  {
    if rs != [] {
      var init := rs[..|rs| - 1];
      RemoveAllMembers(roles, init);
      RemoveFirstMembers(RemoveAll(roles, init), rs[|rs| - 1]);
      assert rs == init + [rs[|rs| - 1]];
    }
  }

  /** On a duplicate-free whitelist, the removes change it iff some mentioned
      role was present. */
  lemma RemoveAllChanged(roles: seq<RoleId>, rs: seq<RoleId>)
    requires NoDup(roles)
    ensures RemoveAll(roles, rs) != roles <==> exists i :: 0 <= i < |rs| && rs[i] in roles
  {
    RemoveAllMembers(roles, rs);
    if !exists i :: 0 <= i < |rs| && rs[i] in roles {
      RemoveAllUntouched(roles, rs);
    }
  }

  /** Removing only absent roles leaves the list as it is. */
  lemma {:induction false} RemoveAllUntouched(roles: seq<RoleId>, rs: seq<RoleId>)
    requires forall i :: 0 <= i < |rs| ==> rs[i] !in roles
    ensures RemoveAll(roles, rs) == roles
  {
    if rs != [] {
      RemoveAllUntouched(roles, rs[..|rs| - 1]);
      RemoveFirstLength(roles, rs[|rs| - 1]);
    }
  }

  /** Removing the same roles a second time changes nothing. */
  lemma RemoveAllIdempotent(roles: seq<RoleId>, rs: seq<RoleId>)
    requires NoDup(roles)
    ensures RemoveAll(RemoveAll(roles, rs), rs) == RemoveAll(roles, rs)
  {
    RemoveAllMembers(roles, rs);
    RemoveAllUntouched(RemoveAll(roles, rs), rs);
  }

  /** The elements of `s` that are not in `drop`, in their order in `s`. */
  function Kept(s: seq<RoleId>, drop: seq<RoleId>): (r: seq<RoleId>)
    ensures |r| <= |s|
    ensures forall x :: x in r <==> x in s && x !in drop
  {
    if s == [] then []
    else
      var rest := Kept(s[1..], drop);
      assert forall x :: x in s <==> x == s[0] || x in s[1..];
      if s[0] in drop then rest else [s[0]] + rest
  }

  /** Filtering distributes over concatenation. */
  lemma {:induction false} KeptAppend(s: seq<RoleId>, t: seq<RoleId>, drop: seq<RoleId>)
    ensures Kept(s + t, drop) == Kept(s, drop) + Kept(t, drop)
  {
    if s != [] {
      KeptAppend(s[1..], t, drop);
      assert (s + t)[1..] == s[1..] + t;
    } else {
      assert s + t == t;
    }
  }

  /** Filtering out nothing that occurs keeps the whole list. */
  lemma {:induction false} KeptNone(s: seq<RoleId>, drop: seq<RoleId>)
    requires forall x :: x in s ==> x !in drop
    ensures Kept(s, drop) == s
  {
    if s != [] {
      KeptNone(s[1..], drop);
      assert s == [s[0]] + s[1..];
    }
  }

  /** Filtering twice is filtering by both lists. */
  lemma {:induction false} KeptKept(s: seq<RoleId>, a: seq<RoleId>, b: seq<RoleId>)
    ensures Kept(Kept(s, a), b) == Kept(s, a + b)
  {
    if s != [] {
      KeptKept(s[1..], a, b);
      assert s[0] in a + b <==> s[0] in a || s[0] in b;
      if s[0] !in a {
        assert Kept(s, a) == [s[0]] + Kept(s[1..], a);
        assert Kept(s, a)[1..] == Kept(s[1..], a);
      }
    }
  }

  /** On a duplicate-free list, removing the first occurrence of `r`
      removes every occurrence. */
  lemma {:induction false} RemoveFirstIsKept(roles: seq<RoleId>, r: RoleId)
    requires NoDup(roles)
    ensures RemoveFirst(roles, r) == Kept(roles, [r])
  {
    if roles != [] {
      assert NoDup(roles[1..]);
      if roles[0] == r {
        assert roles[0] !in roles[1..];
        KeptNone(roles[1..], [r]);
      } else {
        RemoveFirstIsKept(roles[1..], r);
      }
    }
  }

  /** On a duplicate-free whitelist, `roles remove` keeps exactly the roles
      that were not mentioned, in their original order. */
  lemma {:induction false} RemoveAllIsKept(roles: seq<RoleId>, rs: seq<RoleId>)
    requires NoDup(roles)
    ensures RemoveAll(roles, rs) == Kept(roles, rs)
  {
    if rs == [] {
      KeptNone(roles, rs);
    } else {
      var init := rs[..|rs| - 1];
      var last := rs[|rs| - 1];
      RemoveAllIsKept(roles, init);
      RemoveAllMembers(roles, init);
      RemoveFirstIsKept(RemoveAll(roles, init), last);
      KeptKept(roles, init, [last]);
      assert init + [last] == rs;
    }
  }

  /** For distinct mentions, `roles add` appends exactly the mentioned roles
      that were absent, in mention order. */
  lemma {:induction false} AddAllIsAppend(roles: seq<RoleId>, rs: seq<RoleId>)
    requires NoDup(rs)
    ensures AddAll(roles, rs) == roles + Kept(rs, roles)
  {
    if rs == [] {
      assert roles + [] == roles;
    } else {
      var init := rs[..|rs| - 1];
      var last := rs[|rs| - 1];
      assert NoDup(init);
      AddAllIsAppend(roles, init);
      assert rs == init + [last];
      KeptAppend(init, [last], roles);
      assert last !in init;
      if last in roles {
        assert Kept([last], roles) == [];
        assert Kept(rs, roles) == Kept(init, roles);
      } else {
        assert Kept([last], roles) == [last];
        assert last !in Kept(init, roles);
        assert last !in roles + Kept(init, roles);
      }
    }
  }
}
