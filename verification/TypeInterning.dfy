/** Interning the types of recorded values with the trace writer (`dwarf_type` in
    `src/source_recorder.rs`).  A structure's members are interned before it, by recursion, and it is
    remembered only afterwards; so the recursion ends exactly when no structure contains itself. */
module TypeInterning {
  import opened Wrappers
  import opened DebugModel

  /** The types registered so far, in order.  (The names registered for member types that are
      missing are left aside.) */
  type Interned = seq<TypeRef>

  /** `b` is the type of a direct member of the structure `a`. */
  predicate IsMemberOf(types: seq<TypeDesc>, b: TypeRef, a: TypeRef) {
    a < |types| && types[a].Struct? && exists k :: 0 <= k < |types[a].members| && types[a].members[k].ty == Some(b)
  }

  /** The calls of `dwarf_type`, at most `fuel` of them nested; None when that is not enough. */
  function Intern(types: seq<TypeDesc>, known: Interned, ty: TypeRef, fuel: nat): (r: Option<Interned>)
    ensures r.Some? ==> known <= r.value && ty in r.value
    decreases fuel, 0
  {
    if ty in known then Some(known)
    else if fuel == 0 then None
    else if ty < |types| && types[ty].Struct? then
      match InternMembers(types, known, types[ty].members, fuel - 1)
      case None => None
      case Some(after) => Some(after + [ty])
    else Some(known + [ty])
  }

  function InternMembers(types: seq<TypeDesc>, known: Interned, members: seq<Member>, fuel: nat): (r: Option<Interned>)
    ensures r.Some? ==> known <= r.value
    ensures r.Some? ==> forall k :: 0 <= k < |members| && members[k].ty.Some? ==> members[k].ty.value in r.value
    decreases fuel, 1 + |members|
  {
    if members == [] then Some(known)
    else
      var front, m := members[..|members| - 1], members[|members| - 1];
      match InternMembers(types, known, front, fuel)
      case None => None
      case Some(after) => if m.ty.None? then Some(after) else Intern(types, after, m.ty.value, fuel)
  }

  /** The call for `ty` comes to an end. */
  ghost predicate Ends(types: seq<TypeDesc>, known: Interned, ty: TypeRef) {
    exists fuel :: Intern(types, known, ty, fuel).Some?
  }

  // ---------------------------------------------------------------------------
  // Structures inside structures
  // ---------------------------------------------------------------------------

  /** Each type on the path is that of a direct member of the one before. */
  predicate IsPath(types: seq<TypeDesc>, path: seq<TypeRef>) {
    forall i :: 0 <= i < |path| - 1 ==> IsMemberOf(types, path[i + 1], path[i])
  }

  /** A way from a structure down to itself. */
  predicate IsCycle(types: seq<TypeDesc>, path: seq<TypeRef>) {
    |path| >= 2 && path[0] == path[|path| - 1] && IsPath(types, path)
  }

  /** No structure contains itself, directly or inside a member. */
  ghost predicate StructsEnd(types: seq<TypeDesc>) {
    forall path :: !IsCycle(types, path)
  }

  ghost predicate OnCycle(types: seq<TypeDesc>, t: TypeRef) {
    exists path :: IsCycle(types, path) && path[0] == t
  }

  /** The next type on a cycle is on one too. */
  lemma NextOnCycle(types: seq<TypeDesc>, t: TypeRef) returns (next: TypeRef)
    requires OnCycle(types, t)
    ensures IsMemberOf(types, next, t) && OnCycle(types, next)
  {
    var path :| IsCycle(types, path) && path[0] == t;
    next := path[1];
    var turned := path[1..] + [next];
    forall i | 0 <= i < |turned| - 1 ensures IsMemberOf(types, turned[i + 1], turned[i]) {
      if i < |path| - 2 {
        assert IsMemberOf(types, path[i + 2], path[i + 1]);
      } else {
        assert IsMemberOf(types, path[1], path[0]);
      }
    }
    assert IsMemberOf(types, path[0 + 1], path[0]);
    assert IsCycle(types, turned);
  }

  ghost predicate NoneOnCycle(types: seq<TypeDesc>, known: Interned) {
    forall t :: t in known ==> !OnCycle(types, t)
  }

  /** A call that ends has interned nothing that is on a cycle. */
  lemma {:induction false} EndedIsOffCycle(types: seq<TypeDesc>, known: Interned, ty: TypeRef, fuel: nat)
    requires NoneOnCycle(types, known) && Intern(types, known, ty, fuel).Some?
    ensures NoneOnCycle(types, Intern(types, known, ty, fuel).value)
    decreases fuel, 0
  {
    if ty !in known && ty < |types| && types[ty].Struct? {
      MembersAreOffCycle(types, known, types[ty].members, fuel - 1);
      if OnCycle(types, ty) {
        var next := NextOnCycle(types, ty);
      }
    } else if ty !in known && OnCycle(types, ty) {
      var next := NextOnCycle(types, ty);
    }
  }

  lemma {:induction false} MembersAreOffCycle(types: seq<TypeDesc>, known: Interned, members: seq<Member>, fuel: nat)
    requires NoneOnCycle(types, known) && InternMembers(types, known, members, fuel).Some?
    ensures NoneOnCycle(types, InternMembers(types, known, members, fuel).value)
    decreases fuel, 1 + |members|
  {
    if members != [] {
      var front, m := members[..|members| - 1], members[|members| - 1];
      MembersAreOffCycle(types, known, front, fuel);
      if m.ty.Some? {
        EndedIsOffCycle(types, InternMembers(types, known, front, fuel).value, m.ty.value, fuel);
      }
    }
  }

  // ---------------------------------------------------------------------------
  // Enough calls
  // ---------------------------------------------------------------------------

  predicate Distinct(path: seq<TypeRef>) {
    forall i, j :: 0 <= i < j < |path| ==> path[i] != path[j]
  }

  /** Without cycles a path names no type twice. */
  lemma PathsAreDistinct(types: seq<TypeDesc>, path: seq<TypeRef>)
    requires StructsEnd(types) && IsPath(types, path)
    ensures Distinct(path)
  {
    forall i, j | 0 <= i < j < |path| && path[i] == path[j] ensures false {
      var loop := path[i..j + 1];
      forall k | 0 <= k < |loop| - 1 ensures IsMemberOf(types, loop[k + 1], loop[k]) {
        assert IsMemberOf(types, path[i + k + 1], path[i + k]);
      }
      assert IsCycle(types, loop);
    }
  }

  lemma {:induction false} DistinctIsShort(path: seq<TypeRef>, n: nat)
    requires Distinct(path) && forall i :: 0 <= i < |path| ==> path[i] < n
    ensures |path| <= n
    decreases n
  {
    assert path == [] || path[0] < n;
    if k :| 0 <= k < |path| && path[k] == n - 1 {
      DistinctIsShort(path[..k] + path[k + 1..], n - 1);
    } else if n > 0 {
      DistinctIsShort(path, n - 1);
    }
  }

  /** The structures being interned, outermost first: a path, all known types. */
  ghost predicate IsActive(types: seq<TypeDesc>, active: seq<TypeRef>) {
    IsPath(types, active) && forall i :: 0 <= i < |active| ==> active[i] < |types|
  }

  /** How many more calls can nest inside the active ones. */
  ghost function Room(types: seq<TypeDesc>, active: seq<TypeRef>): (n: nat)
    requires StructsEnd(types) && IsActive(types, active)
    ensures n >= 1
  {
    PathsAreDistinct(types, active);
    DistinctIsShort(active, |types|);
    |types| - |active| + 1
  }

  /** `ty` can be interned inside the active structures. */
  ghost predicate Follows(types: seq<TypeDesc>, active: seq<TypeRef>, ty: TypeRef) {
    active != [] ==> IsMemberOf(types, ty, active[|active| - 1])
  }

  lemma ActiveGrows(types: seq<TypeDesc>, active: seq<TypeRef>, ty: TypeRef)
    requires StructsEnd(types) && IsActive(types, active) && Follows(types, active, ty) && ty < |types|
    ensures IsActive(types, active + [ty]) && Room(types, active + [ty]) == Room(types, active) - 1
  {
    var longer := active + [ty];
    forall i | 0 <= i < |longer| - 1 ensures IsMemberOf(types, longer[i + 1], longer[i]) {
      if i < |active| - 1 {
        assert IsMemberOf(types, active[i + 1], active[i]);
      }
    }
  }

  /** More fuel than enough changes nothing. */
  lemma {:induction false} MoreFuel(types: seq<TypeDesc>, known: Interned, ty: TypeRef, fuel: nat, more: nat)
    requires fuel <= more && Intern(types, known, ty, fuel).Some?
    ensures Intern(types, known, ty, more) == Intern(types, known, ty, fuel)
    decreases fuel, 0
  {
    if ty !in known && ty < |types| && types[ty].Struct? {
      MoreFuelForMembers(types, known, types[ty].members, fuel - 1, more - 1);
    }
  }

  lemma {:induction false} MoreFuelForMembers(
      types: seq<TypeDesc>, known: Interned, members: seq<Member>, fuel: nat, more: nat)
    requires fuel <= more && InternMembers(types, known, members, fuel).Some?
    ensures InternMembers(types, known, members, more) == InternMembers(types, known, members, fuel)
    decreases fuel, 1 + |members|
  {
    if members != [] {
      var front, m := members[..|members| - 1], members[|members| - 1];
      MoreFuelForMembers(types, known, front, fuel, more);
      if m.ty.Some? {
        MoreFuel(types, InternMembers(types, known, front, fuel).value, m.ty.value, fuel, more);
      }
    }
  }

  /** Calls that end with different fuel end in the same way. */
  lemma EndsInOneWay(types: seq<TypeDesc>, known: Interned, ty: TypeRef, fuel: nat, fuel': nat)
    requires Intern(types, known, ty, fuel).Some? && Intern(types, known, ty, fuel').Some?
    ensures Intern(types, known, ty, fuel) == Intern(types, known, ty, fuel')
  {
    if fuel <= fuel' {
      MoreFuel(types, known, ty, fuel, fuel');
    } else {
      MoreFuel(types, known, ty, fuel', fuel);
    }
  }

  // ---------------------------------------------------------------------------
  // The interner
  // ---------------------------------------------------------------------------

  class TypeInterner {
    const types: seq<TypeDesc>
    /** The keys of the type cache, in the order they were registered with the trace writer. */
    var known: Interned

    constructor (types: seq<TypeDesc>)
      ensures this.types == types && known == []
    {
      this.types := types;
      known := [];
    }

    /** `dwarf_type`, called while the structures `active` are being interned. */
    method DwarfType(ty: TypeRef, ghost active: seq<TypeRef>)
      requires StructsEnd(types) && IsActive(types, active) && Follows(types, active, ty)
      modifies this
      ensures Intern(types, old(known), ty, Room(types, active)) == Some(known)
      decreases Room(types, active), 0
    {
      if ty in known {
        return;
      }
      if ty < |types| && types[ty].Struct? {
        ActiveGrows(types, active, ty);
        ghost var before := known;
        var members := types[ty].members;
        for i := 0 to |members|
          invariant InternMembers(types, before, members[..i], Room(types, active) - 1) == Some(known)
        {
          assert members[..i + 1][..i] == members[..i];
          if members[i].ty.Some? {
            assert IsMemberOf(types, members[i].ty.value, ty);
            DwarfType(members[i].ty.value, active + [ty]);
          }
        }
        assert members[..|members|] == members;
      }
      known := known + [ty];
    }
  }

  // ---------------------------------------------------------------------------
  // What interning comes to
  // ---------------------------------------------------------------------------

  /** Each type is registered once, and a structure after the types of its members. */
  ghost predicate MembersFirst(types: seq<TypeDesc>, known: Interned) {
    && Distinct(known)
    && forall i, t :: 0 <= i < |known| && IsMemberOf(types, t, known[i]) ==> t in known[..i]
  }

  lemma {:induction false} InternKeepsMembersFirst(types: seq<TypeDesc>, known: Interned, ty: TypeRef, fuel: nat)
    requires StructsEnd(types) && MembersFirst(types, known) && Intern(types, known, ty, fuel).Some?
    ensures MembersFirst(types, Intern(types, known, ty, fuel).value)
    ensures forall t :: t in Intern(types, known, ty, fuel).value && t !in known ==> t == ty || Below(types, t, ty)
    decreases fuel, 0
  {
    if ty !in known {
      if ty < |types| && types[ty].Struct? {
        var members := types[ty].members;
        forall k | 0 <= k < |members| && members[k].ty.Some? ensures IsMemberOf(types, members[k].ty.value, ty) {
        }
        MembersKeepMembersFirst(types, known, ty, members, fuel - 1);
        var after := InternMembers(types, known, members, fuel - 1).value;
        NotBelowItself(types, ty);
        RegisterLast(types, after, ty);
      } else {
        RegisterLast(types, known, ty);
      }
    }
  }

  /** A type inside the structure: on a path down from it. */
  ghost predicate Below(types: seq<TypeDesc>, t: TypeRef, ty: TypeRef) {
    exists path :: |path| >= 2 && path[0] == ty && path[|path| - 1] == t && IsPath(types, path)
  }

  lemma NotBelowItself(types: seq<TypeDesc>, ty: TypeRef)
    requires StructsEnd(types)
    ensures !Below(types, ty, ty)
  {
    if Below(types, ty, ty) {
      var path :| |path| >= 2 && path[0] == ty && path[|path| - 1] == ty && IsPath(types, path);
      assert IsCycle(types, path);
    }
  }

  lemma MemberIsBelow(types: seq<TypeDesc>, m: TypeRef, t: TypeRef, ty: TypeRef)
    requires IsMemberOf(types, m, ty) && (t == m || Below(types, t, m))
    ensures Below(types, t, ty)
  {
    if t == m {
      var path := [ty, m];
      assert IsPath(types, path);
    } else {
      var path :| |path| >= 2 && path[0] == m && path[|path| - 1] == t && IsPath(types, path);
      var longer := [ty] + path;
      forall i | 0 <= i < |longer| - 1 ensures IsMemberOf(types, longer[i + 1], longer[i]) {
        if i > 0 {
          assert IsMemberOf(types, path[i], path[i - 1]);
        }
      }
      assert IsPath(types, longer);
    }
  }

  lemma RegisterLast(types: seq<TypeDesc>, known: Interned, ty: TypeRef)
    requires MembersFirst(types, known) && ty !in known
    requires forall t :: IsMemberOf(types, t, ty) ==> t in known
    ensures MembersFirst(types, known + [ty])
  {
    var after := known + [ty];
    forall i, t | 0 <= i < |after| && IsMemberOf(types, t, after[i]) ensures t in after[..i] {
      if i < |known| {
        assert after[..i] == known[..i];
      } else {
        assert after[..i] == known;
      }
    }
  }

  lemma {:induction false} MembersKeepMembersFirst(
      types: seq<TypeDesc>, known: Interned, ty: TypeRef, members: seq<Member>, fuel: nat)
    requires StructsEnd(types) && MembersFirst(types, known) && InternMembers(types, known, members, fuel).Some?
    requires forall k :: 0 <= k < |members| && members[k].ty.Some? ==> IsMemberOf(types, members[k].ty.value, ty)
    ensures MembersFirst(types, InternMembers(types, known, members, fuel).value)
    ensures forall t :: t in InternMembers(types, known, members, fuel).value && t !in known ==> Below(types, t, ty)
    decreases fuel, 1 + |members|
  {
    if members != [] {
      var front, m := members[..|members| - 1], members[|members| - 1];
      MembersKeepMembersFirst(types, known, ty, front, fuel);
      if m.ty.Some? {
        var after := InternMembers(types, known, front, fuel).value;
        InternKeepsMembersFirst(types, after, m.ty.value, fuel);
        forall t | t in Intern(types, after, m.ty.value, fuel).value && t !in after ensures Below(types, t, ty) {
          MemberIsBelow(types, m.ty.value, t, ty);
        }
      }
    }
  }

  // ---------------------------------------------------------------------------
  // When it ends
  // ---------------------------------------------------------------------------

  /** With as many nested calls as there are types, and one more, every call ends. */
  lemma {:induction false} RoomIsEnough(types: seq<TypeDesc>, known: Interned, ty: TypeRef, active: seq<TypeRef>)
    requires StructsEnd(types) && IsActive(types, active) && Follows(types, active, ty)
    ensures Intern(types, known, ty, Room(types, active)).Some?
    decreases Room(types, active), 0
  {
    if ty !in known && ty < |types| && types[ty].Struct? {
      ActiveGrows(types, active, ty);
      MembersHaveRoom(types, known, ty, types[ty].members, active + [ty]);
    }
  }

  lemma {:induction false} MembersHaveRoom(
      types: seq<TypeDesc>, known: Interned, ty: TypeRef, members: seq<Member>, active: seq<TypeRef>)
    requires StructsEnd(types) && IsActive(types, active) && active != [] && active[|active| - 1] == ty
    requires forall k :: 0 <= k < |members| && members[k].ty.Some? ==> IsMemberOf(types, members[k].ty.value, ty)
    ensures InternMembers(types, known, members, Room(types, active)).Some?
    decreases Room(types, active), 1 + |members|
  {
    if members != [] {
      var front, m := members[..|members| - 1], members[|members| - 1];
      MembersHaveRoom(types, known, ty, front, active);
      if m.ty.Some? {
        var after := InternMembers(types, known, front, Room(types, active)).value;
        RoomIsEnough(types, after, m.ty.value, active);
      }
    }
  }

  /** Interning ends for every type, from an empty cache, if and only if no structure contains itself. */
  lemma InterningEndsIff(types: seq<TypeDesc>)
    ensures (forall ty :: Ends(types, [], ty)) <==> StructsEnd(types)
  {
    if StructsEnd(types) {
      forall ty ensures Ends(types, [], ty) {
        RoomIsEnough(types, [], ty, []);
      }
    } else {
      var path :| IsCycle(types, path);
      if Ends(types, [], path[0]) {
        var fuel :| Intern(types, [], path[0], fuel).Some?;
        EndedIsOffCycle(types, [], path[0], fuel);
        assert OnCycle(types, path[0]);
      }
    }
  }

  /** A structure that is its own member: no number of nested calls is enough. */
  lemma SelfContainingNeverEnds(fuel: nat)
    ensures Intern([Struct(8, [Member("m", 0, Some(0))])], [], 0, fuel).None?
  {
    var types := [Struct(8, [Member("m", 0, Some(0))])];
    assert types[0].members[0].ty == Some(0);
    assert IsMemberOf(types, 0, 0);
    var loop := [0, 0];
    assert IsCycle(types, loop) && loop[0] == 0;
    if Intern(types, [], 0, fuel).Some? {
      EndedIsOffCycle(types, [], 0, fuel);
    }
  }

  /** Members are interned in order: those of the first part, and then those of the second. */
  lemma {:induction false} MembersInOrder(types: seq<TypeDesc>, known: Interned, a: seq<Member>, b: seq<Member>, fuel: nat)
    ensures InternMembers(types, known, a + b, fuel) ==
      match InternMembers(types, known, a, fuel)
      case None => None
      case Some(after) => InternMembers(types, after, b, fuel)
    decreases |b|
  {
    if b == [] {
      assert a + b == a;
    } else {
      var last := |b| - 1;
      assert (a + b)[..|a + b| - 1] == a + b[..last];
      MembersInOrder(types, known, a, b[..last], fuel);
    }
  }
}
