/** Users, their group memberships, and the owner lists of the groups. */
module Identity {
  import opened Wrappers
  import opened Names
  import opened Texts
  import TextOrder
  import Sessions

  datatype GroupRole = GroupOwner | ConfigurationEditor | DeploymentApprover | DeploymentOperator | Auditor | Viewer

  datatype Membership = Membership(username: string, group: string, roles: set<GroupRole>)

  datatype User = User(username: string, role: Sessions.Role, enabled: bool)

  datatype Problem =
    | GroupMissing
    | UnknownRole
    | RoleRequired
    | UserMissing
    | GroupRequired
    | OwnerUnfit(name: string)
    | StoreFailed

  /** A store access that failed. */
  datatype Fault =
    | GroupRead
    | MembershipListing
    | UserRead
    | MembershipWrite
    | RoleWrite
    | OwnershipListing
    | GroupListing
    | OwnerWrite(group: string)

  // ---------- Owner lists ----------

  /** A name without commas and surrounding blanks. */
  predicate Plain(name: string) {
    name != "" && ',' !in name && !Blank(name[0]) && !Blank(name[|name| - 1])
  }

  function Trimmed(pieces: seq<string>): seq<string> {
    if pieces == [] then []
    else
      var last := Trim(pieces[|pieces| - 1]);
      Trimmed(pieces[..|pieces| - 1]) + if last == "" then [] else [last]
  }

  /** The names in a list whose entries may themselves be comma-separated lists. */
  function Pieces(values: seq<string>): seq<string> {
    if values == [] then [] else Pieces(values[..|values| - 1]) + Trimmed(Split(values[|values| - 1], ','))
  }

  /** The first spelling of every name. */
  function Unique(names: seq<string>): seq<string> {
    if names == [] then []
    else
      var before := Unique(names[..|names| - 1]);
      if Owns(names[..|names| - 1], names[|names| - 1]) then before else before + [names[|names| - 1]]
  }

  predicate Owns(owners: seq<string>, name: string) {
    exists i :: 0 <= i < |owners| && SameName(owners[i], name)
  }

  function Normalized(values: seq<string>): seq<string> {
    TextOrder.Sorted(Unique(Pieces(values)))
  }

  predicate AllPlain(names: seq<string>) {
    forall name | name in names :: Plain(name)
  }

  lemma {:induction false} PlainPieces(names: seq<string>)
    requires AllPlain(names)
    ensures Pieces(names) == names
  {
    if names != [] {
      var last := |names| - 1;
      PlainPieces(names[..last]);
      assert Plain(names[last]);
      SplitWhole(names[last], ',');
      assert Trimmed([]) == [] && [names[last]][..0] == [];
      assert Trimmed([names[last]]) == [names[last]];
      assert names == names[..last] + [names[last]];
    }
  }

  lemma {:induction false} UniqueKeeps(names: seq<string>, name: string)
    ensures Owns(Unique(names), name) <==> Owns(names, name)
    ensures forall other | other in Unique(names) :: other in names
  {
    if names != [] {
      var last := |names| - 1;
      UniqueKeeps(names[..last], name);
      OwnsSnoc(names[..last], names[last], name);
      OwnsSnoc(Unique(names[..last]), names[last], name);
      assert names == names[..last] + [names[last]];
    }
  }

  lemma OwnsSnoc(owners: seq<string>, last: string, name: string)
    ensures Owns(owners + [last], name) <==> Owns(owners, name) || SameName(last, name)
  {
    if Owns(owners, name) {
      var i :| 0 <= i < |owners| && SameName(owners[i], name);
      assert (owners + [last])[i] == owners[i];
    }
    assert (owners + [last])[|owners|] == last;
    if Owns(owners + [last], name) {
      var i :| 0 <= i <= |owners| && SameName((owners + [last])[i], name);
      if i < |owners| { assert SameName(owners[i], name); }
    }
  }

  /** Normalising keeps whom the pieces name. */
  lemma {:induction false} NormalizedKeeps(values: seq<string>, name: string)
    ensures Owns(Normalized(values), name) <==> Owns(Pieces(values), name)
  {
    UniqueKeeps(Pieces(values), name);
    TextOrder.SortSound([], Unique(Pieces(values)));
    var sorted, once := Normalized(values), Unique(Pieces(values));
    if Owns(sorted, name) {
      var i :| 0 <= i < |sorted| && SameName(sorted[i], name);
      assert sorted[i] in once;
    }
    if Owns(once, name) {
      var i :| 0 <= i < |once| && SameName(once[i], name);
      assert once[i] in sorted;
    }
  }

  /** Normalising plain names keeps who owns. */
  lemma NormalizedOwns(names: seq<string>, name: string)
    requires AllPlain(names)
    ensures Owns(Normalized(names), name) <==> Owns(names, name)
    ensures AllPlain(Normalized(names))
  {
    PlainPieces(names);
    NormalizedKeeps(names, name);
    UniqueKeeps(names, name);
    TextOrder.SortSound([], Unique(names));
  }

  lemma {:induction false} TrimmedPlain(pieces: seq<string>)
    requires forall piece | piece in pieces :: ',' !in piece
    ensures AllPlain(Trimmed(pieces))
  {
    if pieces != [] {
      TrimmedPlain(pieces[..|pieces| - 1]);
      TrimEnds(pieces[|pieces| - 1]);
    }
  }

  lemma {:induction false} PiecesPlain(values: seq<string>)
    ensures AllPlain(Pieces(values))
  {
    if values != [] {
      var last := |values| - 1;
      PiecesPlain(values[..last]);
      PiecesHaveNoSeparator(values[last], ',');
      TrimmedPlain(Split(values[last], ','));
    }
  }

  /** Whatever is normalised, the owners are plain names. */
  lemma NormalizedPlain(values: seq<string>)
    ensures AllPlain(Normalized(values))
  {
    PiecesPlain(values);
    UniqueKeeps(Pieces(values), "");
    TextOrder.SortSound([], Unique(Pieces(values)));
  }

  // ---------- Keeping owners in step with memberships ----------

  function Without(owners: seq<string>, name: string): seq<string> {
    if owners == [] then []
    else
      var last := owners[|owners| - 1];
      Without(owners[..|owners| - 1], name) + if SameName(last, name) then [] else [last]
  }

  /** A group's owners after one user's ownership has been decided. */
  function OwnersAfter(owners: seq<string>, name: string, chosen: bool): seq<string> {
    Normalized(Without(owners, name) + if chosen then [name] else [])
  }

  lemma {:induction false} WithoutOwns(owners: seq<string>, name: string, other: string)
    ensures Owns(Without(owners, name), other) <==> Owns(owners, other) && !SameName(name, other)
    ensures forall owner | owner in Without(owners, name) :: owner in owners
  {
    if owners != [] {
      var last := |owners| - 1;
      var before := Without(owners[..last], name);
      WithoutOwns(owners[..last], name, other);
      OwnsSnoc(owners[..last], owners[last], other);
      OwnsSnoc(before, owners[last], other);
      assert owners == owners[..last] + [owners[last]];
      assert Without(owners, name) == if SameName(owners[last], name) then before else before + [owners[last]];
      hide Owns, Without;
    }
  }

  /** The names a name is read as when it is put on an owner list: a plain one is read as itself. */
  function NamesIn(name: string): seq<string> {
    Trimmed(Split(name, ','))
  }

  lemma PiecesSnoc(names: seq<string>, name: string)
    ensures Pieces(names + [name]) == Pieces(names) + NamesIn(name)
  {
    assert (names + [name])[..|names|] == names;
  }

  lemma PlainNamesIn(name: string)
    ensures AllPlain(NamesIn(name)) && (Plain(name) ==> NamesIn(name) == [name])
  {
    PiecesSnoc([], name);
    assert [] + [name] == [name] && Pieces([]) + NamesIn(name) == NamesIn(name);
    PiecesPlain([name]);
    if Plain(name) { PlainPieces([name]); }
  }

  lemma PlainFold(a: string, b: string)
    requires SameName(a, b) && Plain(a)
    ensures Plain(b)
  {
    assert |a| == |Fold(a)| == |Fold(b)| == |b|;
    forall i | 0 <= i < |a| ensures FoldChar(a[i]) == FoldChar(b[i]) { assert Fold(a)[i] == Fold(b)[i]; }
    assert forall i | 0 <= i < |b| :: b[i] == ',' ==> a[i] == ',';
  }

  /** Only a plain name is on the list it is read as. */
  lemma NamesInOwn(name: string)
    ensures Owns(NamesIn(name), name) <==> Plain(name)
  {
    PlainNamesIn(name);
    if Plain(name) { assert NamesIn(name)[0] == name; }
    if Owns(NamesIn(name), name) {
      var i :| 0 <= i < |NamesIn(name)| && SameName(NamesIn(name)[i], name);
      assert NamesIn(name)[i] in NamesIn(name);
      PlainFold(NamesIn(name)[i], name);
    }
  }

  lemma OwnsConcat(a: seq<string>, b: seq<string>, name: string)
    ensures Owns(a + b, name) <==> Owns(a, name) || Owns(b, name)
  {
    if Owns(a, name) {
      var i :| 0 <= i < |a| && SameName(a[i], name);
      assert (a + b)[i] == a[i];
    }
    if Owns(b, name) {
      var i :| 0 <= i < |b| && SameName(b[i], name);
      assert (a + b)[|a| + i] == b[i];
    }
    if Owns(a + b, name) {
      var i :| 0 <= i < |a + b| && SameName((a + b)[i], name);
      assert (a + b)[i] == if i < |a| then a[i] else b[i - |a|];
    }
  }

  /** A user with a plain name owns the group exactly when chosen, any other user never; whoever the
      name is read as is an owner when it is chosen; everybody else's ownership stays. */
  lemma OwnershipDecided(owners: seq<string>, name: string, chosen: bool, other: string)
    requires AllPlain(owners)
    ensures AllPlain(OwnersAfter(owners, name, chosen))
    ensures Owns(OwnersAfter(owners, name, chosen), other) <==>
      if SameName(name, other) then chosen && Plain(name) else Owns(owners, other) || (chosen && Owns(NamesIn(name), other))
  {
    WithoutOwns(owners, name, other);
    var rest := Without(owners, name);
    var next := rest + if chosen then [name] else [];
    NormalizedPlain(next);
    NormalizedKeeps(next, other);
    PlainPieces(rest);
    if chosen {
      PiecesSnoc(rest, name);
      OwnsConcat(rest, NamesIn(name), other);
    } else {
      assert next == rest;
    }
    if SameName(name, other) {
      NamesInOwn(name);
      SameOwner(NamesIn(name), name, other);
    }
  }

  lemma SameOwner(owners: seq<string>, a: string, b: string)
    requires SameName(a, b)
    ensures Owns(owners, a) <==> Owns(owners, b)
  {
  }

  /** A user whose name contains a comma never gets on a list, but the users named by its parts do. */
  lemma CommaNameOwns(a: string, b: string)
    requires Plain(a) && Plain(b)
    ensures var name := a + "," + b;
      var owners := OwnersAfter([], name, true);
      !Owns(owners, name) && Owns(owners, a) && Owns(owners, b)
  {
    var name := a + "," + b;
    CommaNames(a, b);
    OwnershipDecided([], name, true, name);
    OwnershipDecided([], name, true, a);
    OwnershipDecided([], name, true, b);
    hide Owns, OwnersAfter, NamesIn;
    assert |Fold(name)| == |a| + 1 + |b| && |Fold(a)| == |a| && |Fold(b)| == |b|;
    assert name[|a|] == ',';
  }

  lemma CommaNames(a: string, b: string)
    requires Plain(a) && Plain(b)
    ensures NamesIn(a + "," + b) == [a, b] && Owns([a, b], a) && Owns([a, b], b)
  {
    var pieces := [a, b];
    SplitAt(a, b);
    TrimKeeps(a);
    TrimKeeps(b);
    assert pieces[0] == a && pieces[1] == b;
    hide Split, Trim, Plain;
    assert pieces[..1] == [a] && pieces[..1][..0] == [];
    assert Trimmed(pieces[..1]) == [a];
    assert Trimmed(pieces) == [a] + [b];
  }

  lemma {:induction false} SplitAt(left: string, right: string)
    requires ',' !in left && ',' !in right
    ensures Split(left + "," + right, ',') == [left, right]
  {
    if left == "" {
      SplitWhole(right, ',');
      assert ("" + "," + right)[1..] == right;
    } else {
      SplitAt(left[1..], right);
      assert (left + "," + right)[1..] == left[1..] + "," + right;
      assert left == [left[0]] + left[1..];
    }
  }

  // ---------- Memberships ----------

  /** The user's roles in a group, when the user is a member. */
  function RolesOf(memberships: seq<Membership>, name: string, group: string): Option<set<GroupRole>> {
    if memberships == [] then None
    else
      var last := memberships[|memberships| - 1];
      if SameName(last.username, name) && last.group == group then Some(last.roles)
      else RolesOf(memberships[..|memberships| - 1], name, group)
  }

  predicate OwnerRole(memberships: seq<Membership>, name: string, group: string) {
    RolesOf(memberships, name, group).Some? && GroupOwner in RolesOf(memberships, name, group).value
  }

  predicate Belongs(memberships: seq<Membership>, name: string) {
    exists i :: 0 <= i < |memberships| && SameName(memberships[i].username, name)
  }

  /** No user is listed twice in a group. */
  predicate Unrepeated(memberships: seq<Membership>) {
    forall i, j | 0 <= i < j < |memberships| ::
      !SameName(memberships[i].username, memberships[j].username) || memberships[i].group != memberships[j].group
  }

  function AllRoles(memberships: seq<Membership>): set<GroupRole> {
    if memberships == [] then {}
    else AllRoles(memberships[..|memberships| - 1]) + memberships[|memberships| - 1].roles
  }

  lemma {:induction false} RolesOfAppend(a: seq<Membership>, b: seq<Membership>, name: string, group: string)
    ensures RolesOf(a + b, name, group) == if RolesOf(b, name, group).Some? then RolesOf(b, name, group) else RolesOf(a, name, group)
  {
    if b != [] {
      assert (a + b)[..|a + b| - 1] == a + b[..|b| - 1];
      RolesOfAppend(a, b[..|b| - 1], name, group);
    } else {
      assert a + b == a;
    }
  }

  lemma {:induction false} RolesOfAt(memberships: seq<Membership>, i: nat)
    requires i < |memberships| && Unrepeated(memberships)
    ensures RolesOf(memberships, memberships[i].username, memberships[i].group) == Some(memberships[i].roles)
  {
    if i < |memberships| - 1 { RolesOfAt(memberships[..|memberships| - 1], i); }
  }

  lemma {:induction false} RolesOfNone(memberships: seq<Membership>, name: string, group: string)
    ensures RolesOf(memberships, name, group).None? <==>
      forall i | 0 <= i < |memberships| :: !SameName(memberships[i].username, name) || memberships[i].group != group
  {
    if memberships != [] { RolesOfNone(memberships[..|memberships| - 1], name, group); }
  }

  lemma {:induction false} SameNameSameRoles(memberships: seq<Membership>, a: string, b: string, group: string)
    requires SameName(a, b)
    ensures RolesOf(memberships, a, group) == RolesOf(memberships, b, group)
  {
    if memberships != [] { SameNameSameRoles(memberships[..|memberships| - 1], a, b, group); }
  }

  /** Everybody else's memberships. */
  function OfOthers(memberships: seq<Membership>, name: string): seq<Membership> {
    if memberships == [] then []
    else
      var last := memberships[|memberships| - 1];
      OfOthers(memberships[..|memberships| - 1], name) + if SameName(last.username, name) then [] else [last]
  }

  /** The memberships under the spelling of the name they are stored with. */
  function Stored(memberships: seq<Membership>, name: string): seq<Membership> {
    seq(|memberships|, i requires 0 <= i < |memberships| => memberships[i].(username := name))
  }

  function ReplaceMemberships(memberships: seq<Membership>, name: string, next: seq<Membership>): seq<Membership> {
    OfOthers(memberships, name) + Stored(next, name)
  }

  lemma {:induction false} OfOthersRoles(memberships: seq<Membership>, name: string, other: string, group: string)
    ensures RolesOf(OfOthers(memberships, name), other, group)
         == if SameName(name, other) then None else RolesOf(memberships, other, group)
  {
    if memberships != [] {
      var last := |memberships| - 1;
      OfOthersRoles(memberships[..last], name, other, group);
      if !SameName(memberships[last].username, name) {
        var before := OfOthers(memberships[..last], name);
        assert (before + [memberships[last]])[..|before|] == before;
      } else {
        assert OfOthers(memberships, name) == OfOthers(memberships[..last], name);
      }
    }
  }

  lemma {:induction false} OfOthersMembers(memberships: seq<Membership>, name: string)
    ensures forall m | m in OfOthers(memberships, name) :: m in memberships && !SameName(m.username, name)
  {
    if memberships != [] { OfOthersMembers(memberships[..|memberships| - 1], name); }
  }

  lemma {:induction false} OfOthersUnrepeated(memberships: seq<Membership>, name: string)
    requires Unrepeated(memberships)
    ensures Unrepeated(OfOthers(memberships, name))
  {
    if memberships != [] {
      var last := |memberships| - 1;
      OfOthersUnrepeated(memberships[..last], name);
      OfOthersMembers(memberships[..last], name);
      var before := OfOthers(memberships[..last], name);
      forall i | 0 <= i < |before|
        ensures !SameName(before[i].username, memberships[last].username) || before[i].group != memberships[last].group
      {
        assert before[i] in memberships[..last];
      }
    }
  }

  lemma {:induction false} StoredRoles(next: seq<Membership>, name: string, group: string)
    requires forall i | 0 <= i < |next| :: SameName(next[i].username, name)
    ensures RolesOf(Stored(next, name), name, group) == RolesOf(next, name, group)
  {
    if next != [] {
      var last := |next| - 1;
      assert Stored(next, name)[..last] == Stored(next[..last], name);
      StoredRoles(next[..last], name, group);
    }
  }

  lemma {:induction false} StoredOthers(next: seq<Membership>, name: string, other: string, group: string)
    requires !SameName(name, other)
    ensures RolesOf(Stored(next, name), other, group).None?
  {
    RolesOfNone(Stored(next, name), other, group);
  }

  predicate OneEach(next: seq<Membership>) {
    forall i, j | 0 <= i < j < |next| :: next[i].group != next[j].group
  }

  lemma UnrepeatedWhole(others: seq<Membership>, own: seq<Membership>, name: string)
    requires Unrepeated(others) && OneEach(own)
    requires forall m | m in others :: !SameName(m.username, name)
    requires forall i | 0 <= i < |own| :: own[i].username == name
    ensures Unrepeated(others + own)
  {
    var all := others + own;
    forall i, j | 0 <= i < j < |all| ensures !SameName(all[i].username, all[j].username) || all[i].group != all[j].group {
      if i < |others| { assert all[i] == others[i] && all[i] in others; }
    }
  }

  /** Replacing a user's memberships sets that user's roles and leaves all others. */
  lemma Replaced(memberships: seq<Membership>, name: string, next: seq<Membership>, other: string, group: string)
    requires Unrepeated(memberships) && OneEach(next)
    requires forall i | 0 <= i < |next| :: SameName(next[i].username, name)
    ensures var result := ReplaceMemberships(memberships, name, next);
      && Unrepeated(result)
      && RolesOf(result, other, group) == (if SameName(name, other) then RolesOf(next, name, group) else RolesOf(memberships, other, group))
      && (Belongs(result, other) <==> if SameName(name, other) then next != [] else Belongs(memberships, other))
  {
    var result := ReplaceMemberships(memberships, name, next);
    OfOthersRoles(memberships, name, other, group);
    OfOthersMembers(memberships, name);
    OfOthersUnrepeated(memberships, name);
    UnrepeatedWhole(OfOthers(memberships, name), Stored(next, name), name);
    hide Unrepeated, OfOthers, Stored, RolesOf, Belongs;
    RolesOfAppend(OfOthers(memberships, name), Stored(next, name), other, group);
    if SameName(name, other) {
      SameNameSameRoles(Stored(next, name), name, other, group);
      StoredRoles(next, name, group);
    } else {
      StoredOthers(next, name, other, group);
    }
    BelongsOthers(memberships, name, other);
    BelongsAppend(OfOthers(memberships, name), Stored(next, name), other);
  }

  lemma BelongsAppend(a: seq<Membership>, b: seq<Membership>, name: string)
    ensures Belongs(a + b, name) <==> Belongs(a, name) || Belongs(b, name)
  {
    if Belongs(a, name) {
      var i :| 0 <= i < |a| && SameName(a[i].username, name);
      assert (a + b)[i] == a[i];
    }
    if Belongs(b, name) {
      var i :| 0 <= i < |b| && SameName(b[i].username, name);
      assert (a + b)[|a| + i] == b[i];
    }
  }

  lemma BelongsOne(membership: Membership, name: string)
    ensures Belongs([membership], name) <==> SameName(membership.username, name)
  {
    assert [membership][0] == membership;
  }

  lemma {:induction false} BelongsOthers(memberships: seq<Membership>, name: string, other: string)
    ensures Belongs(OfOthers(memberships, name), other) <==> Belongs(memberships, other) && !SameName(name, other)
  {
    if memberships != [] {
      var last := |memberships| - 1;
      BelongsOthers(memberships[..last], name, other);
      assert memberships == memberships[..last] + [memberships[last]];
      BelongsOne(memberships[last], other);
      BelongsAppend(memberships[..last], [memberships[last]], other);
      if !SameName(memberships[last].username, name) {
        BelongsAppend(OfOthers(memberships[..last], name), [memberships[last]], other);
      } else {
        assert OfOthers(memberships, name) == OfOthers(memberships[..last], name);
      }
    }
  }

  // ---------- Roles ----------

  function ParseRole(text: string): Option<GroupRole> {
    match text
    case "group_owner" => Some(GroupOwner)
    case "configuration_editor" => Some(ConfigurationEditor)
    case "deployment_approver" => Some(DeploymentApprover)
    case "deployment_operator" => Some(DeploymentOperator)
    case "auditor" => Some(Auditor)
    case "viewer" => Some(Viewer)
    case _ => None
  }

  /** The roles named, blank entries aside; none when one is unknown. */
  function Validated(values: seq<string>): Option<set<GroupRole>> {
    if values == [] then Some({})
    else
      var before := Validated(values[..|values| - 1]);
      var last := Trim(values[|values| - 1]);
      if before.None? || last == "" then before
      else if ParseRole(last).None? then None
      else Some(before.value + {ParseRole(last).value})
  }

  lemma {:induction false} UnknownStays(values: seq<string>, i: nat)
    requires i <= |values| && Validated(values[..i]).None?
    ensures Validated(values).None?
  {
    if i < |values| {
      assert values[..|values| - 1][..i] == values[..i];
      UnknownStays(values[..|values| - 1], i);
    } else {
      assert values[..i] == values;
    }
  }

  method ValidatedGroupRoles(values: seq<string>) returns (roles: Option<set<GroupRole>>)
    ensures roles == Validated(values)
  {
    var result := {};
    for i := 0 to |values|
      invariant Validated(values[..i]) == Some(result)
    {
      assert values[..i + 1][..i] == values[..i];
      var value := Trim(values[i]);
      if value == "" { continue; }
      var role := ParseRole(value);
      if role.None? {
        UnknownStays(values, i + 1);
        return None;
      }
      result := result + {role.value};
    }
    assert values[..|values|] == values;
    roles := Some(result);
  }

  /** The platform-wide role kept for older callers. */
  function CompatibleLegacyRole(roles: set<GroupRole>): Sessions.Role {
    if GroupOwner in roles || DeploymentApprover in roles then Sessions.GroupOwner
    else if ConfigurationEditor in roles || DeploymentOperator in roles then Sessions.Operator
    else Sessions.Viewer
  }

  // ---------- The directory ----------

  /** The user's memberships after setting or removing one of them. */
  ghost predicate NextMemberships(all: seq<Membership>, name: string, group: string, roles: set<GroupRole>, remove: bool, next: seq<Membership>) {
    && (forall i | 0 <= i < |next| :: SameName(next[i].username, name))
    && OneEach(next)
    && forall g :: RolesOf(next, name, g) == if g == group then (if remove then None else Some(roles)) else RolesOf(all, name, g)
  }

  /** The same, before the new membership is added when there was none to set. */
  ghost predicate NextSoFar(all: seq<Membership>, name: string, group: string, roles: set<GroupRole>, remove: bool, next: seq<Membership>) {
    && (forall i | 0 <= i < |next| :: SameName(next[i].username, name))
    && OneEach(next)
    && forall g :: RolesOf(next, name, g) ==
         if g == group && RolesOf(all, name, g).Some? then (if remove then None else Some(roles)) else RolesOf(all, name, g)
  }

  lemma OneMoreMembership(next: seq<Membership>, name: string, added: Membership)
    requires OneEach(next) && SameName(added.username, name) && RolesOf(next, name, added.group).None?
    requires forall i | 0 <= i < |next| :: SameName(next[i].username, name)
    ensures OneEach(next + [added])
    ensures forall g :: RolesOf(next + [added], name, g) == if g == added.group then Some(added.roles) else RolesOf(next, name, g)
  {
    RolesOfNone(next, name, added.group);
    forall g ensures RolesOf(next + [added], name, g) == if g == added.group then Some(added.roles) else RolesOf(next, name, g) {
      assert (next + [added])[..|next|] == next;
    }
  }

  lemma FirstMention(all: seq<Membership>, i: nat, name: string)
    requires i < |all| && Unrepeated(all) && SameName(all[i].username, name)
    ensures RolesOf(all[..i], name, all[i].group).None?
    ensures forall g :: RolesOf(all[..i + 1], name, g) == if g == all[i].group then Some(all[i].roles) else RolesOf(all[..i], name, g)
  {
    RolesOfNone(all[..i], name, all[i].group);
    assert all[..i + 1][..i] == all[..i];
  }

  function GroupsOf(memberships: seq<Membership>): seq<string> {
    seq(|memberships|, i requires 0 <= i < |memberships| => memberships[i].group)
  }

  lemma EmptyRolesAndGroups()
    ensures AllRoles([]) == {} && GroupsOf([]) == []
  {
  }

  lemma RolesAndGroupsSnoc(next: seq<Membership>, last: Membership)
    ensures AllRoles(next + [last]) == AllRoles(next) + last.roles
    ensures GroupsOf(next + [last]) == GroupsOf(next) + [last.group]
  {
    assert (next + [last])[..|next|] == next;
  }

  /** The user's next memberships, the roles held in them and their groups, in order. */
  method ComputeNext(all: seq<Membership>, name: string, group: string, roles: set<GroupRole>, remove: bool)
    returns (next: seq<Membership>, allRoles: set<GroupRole>, groupIds: seq<string>)
    requires Unrepeated(all)
    ensures NextMemberships(all, name, group, roles, remove, next)
    ensures allRoles == AllRoles(next) && groupIds == GroupsOf(next)
  {
    hide SameName, GroupsOf, AllRoles;
    EmptyRolesAndGroups();
    next, allRoles, groupIds := [], {}, [];
    var replaced := false;
    for i := 0 to |all|
      invariant NextSoFar(all[..i], name, group, roles, remove, next)
      invariant allRoles == AllRoles(next) && groupIds == GroupsOf(next)
      invariant replaced <==> RolesOf(all[..i], name, group).Some?
    {
      assert all[..i + 1][..i] == all[..i];
      var membership := all[i];
      if !SameName(membership.username, name) { continue; }
      FirstMention(all, i, name);
      if membership.group == group {
        replaced := true;
        if remove { continue; }
        membership := membership.(roles := roles);
      }
      OneMoreMembership(next, name, membership);
      RolesAndGroupsSnoc(next, membership);
      next := next + [membership];
      groupIds := groupIds + [membership.group];
      allRoles := allRoles + membership.roles;
    }
    assert all[..|all|] == all;
    if !replaced && !remove {
      OneMoreMembership(next, name, Membership(name, group, roles));
      RolesAndGroupsSnoc(next, Membership(name, group, roles));
      next := next + [Membership(name, group, roles)];
      groupIds := groupIds + [group];
      allRoles := allRoles + roles;
    }
  }

  /** The groups the user is to own. Without any membership, or when they could not be listed and so
      none was seen, all given groups count for a group owner of the platform. */
  function Selected(memberships: seq<Membership>, name: string, role: Sessions.Role, groupIds: seq<string>): set<string> {
    if Belongs(memberships, name) then
      set i | 0 <= i < |memberships| && SameName(memberships[i].username, name) && GroupOwner in memberships[i].roles ::
        memberships[i].group
    else if role == Sessions.GroupOwner then set id | id in groupIds
    else {}
  }

  lemma SelectedIffOwnerRole(memberships: seq<Membership>, name: string, role: Sessions.Role, groupIds: seq<string>, group: string)
    requires Unrepeated(memberships) && (Belongs(memberships, name) || groupIds == [])
    ensures group in Selected(memberships, name, role, groupIds) <==> OwnerRole(memberships, name, group)
  {
    RolesOfNone(memberships, name, group);
    if RolesOf(memberships, name, group).Some? {
      var i :| 0 <= i < |memberships| && SameName(memberships[i].username, name) && memberships[i].group == group;
      RolesOfAt(memberships, i);
      SameNameSameRoles(memberships, memberships[i].username, name, group);
      assert Belongs(memberships, name);
    }
    forall i | 0 <= i < |memberships| && SameName(memberships[i].username, name)
      ensures RolesOf(memberships, name, memberships[i].group) == Some(memberships[i].roles)
    {
      RolesOfAt(memberships, i);
      SameNameSameRoles(memberships, memberships[i].username, name, memberships[i].group);
    }
  }

  /** These are the groups the user belongs to. */
  ghost predicate InGroups(memberships: seq<Membership>, name: string, groupIds: seq<string>) {
    forall group :: group in groupIds <==> RolesOf(memberships, name, group).Some?
  }

  lemma InGroupsBelongs(memberships: seq<Membership>, name: string, groupIds: seq<string>)
    requires InGroups(memberships, name, groupIds)
    ensures Belongs(memberships, name) || groupIds == []
  {
    if groupIds != [] {
      assert groupIds[0] in groupIds;
      RolesOfNone(memberships, name, groupIds[0]);
    }
  }

  /** Taken from the groups the user belongs to, without having seen the memberships. */
  lemma SelectedUnseen(memberships: seq<Membership>, name: string, role: Sessions.Role, groupIds: seq<string>, group: string)
    requires InGroups(memberships, name, groupIds)
    ensures group in Selected([], name, role, groupIds) <==> role == Sessions.GroupOwner && RolesOf(memberships, name, group).Some?
  {
  }

  /** The group is one the user is to own. */
  predicate Chosen(memberships: seq<Membership>, name: string, role: Sessions.Role, listed: bool, group: string) {
    if listed then OwnerRole(memberships, name, group)
    else role == Sessions.GroupOwner && RolesOf(memberships, name, group).Some?
  }

  ghost predicate OwnerNowhere(memberships: seq<Membership>, groups: set<string>, name: string) {
    forall group | group in groups :: !OwnerRole(memberships, name, group)
  }

  /** In every one of these groups that the user belongs to, the user is an owner exactly when the
      platform role is that of a group owner. */
  ghost predicate Uniform(memberships: seq<Membership>, groups: set<string>, name: string, role: Sessions.Role) {
    forall group | group in groups && RolesOf(memberships, name, group).Some? ::
      OwnerRole(memberships, name, group) <==> role == Sessions.GroupOwner
  }

  /** A viewer in "A" is made owner of "B", and the memberships cannot be listed a second time: the
      user becomes an owner of "A" as well, although the whole change succeeds. */
  lemma UnseenViewerOwns()
    ensures var after := [Membership("ann", "A", {Viewer}), Membership("ann", "B", {GroupOwner})];
      && CompatibleLegacyRole(AllRoles(after)) == Sessions.GroupOwner
      && "A" in Selected([], "ann", Sessions.GroupOwner, GroupsOf(after))
      && Owns(OwnersAfter([], "ann", true), "ann") && !OwnerRole(after, "ann", "A")
      && !Uniform(after, {"A", "B"}, "ann", Sessions.GroupOwner)
  {
    var after := [Membership("ann", "A", {Viewer}), Membership("ann", "B", {GroupOwner})];
    var role := CompatibleLegacyRole(AllRoles(after));
    OwnershipDecided([], "ann", true, "ann");
    assert Plain("ann");
    hide OwnersAfter, Owns, Plain;
    assert after[..1] == [after[0]] && after[..1][..0] == [];
    assert GroupOwner in AllRoles(after) && role == Sessions.GroupOwner;
    assert GroupsOf(after)[0] == "A";
    assert RolesOf(after[..1], "ann", "A") == Some({Viewer});
    assert RolesOf(after, "ann", "A") == Some({Viewer});
  }

  class Directory {
    var memberships: seq<Membership>
    /** Users by folded name. */
    var users: map<string, User>
    /** The owners of every group. */
    var groups: map<string, seq<string>>
    const table: Sessions.SessionTable
    /** The store accesses that failed so far. */
    ghost var faults: seq<Fault>

    ghost predicate Valid()
      reads this`memberships, this`users, this`groups, table
    {
      && Unrepeated(memberships)
      && Keyed(users)
      && (forall group | group in groups :: AllPlain(groups[group]))
      && table.Valid()
    }

    /** Every user who is not an Admin belongs to a group. */
    ghost predicate MembersBelong()
      reads this`memberships, this`users
    {
      AllBelong(users, memberships)
    }

    /** The user owns exactly the groups where a membership says so. */
    ghost predicate OwnersAgree(name: string)
      reads this`memberships, this`groups
    {
      forall group | group in groups :: Owns(groups[group], name) <==> OwnerRole(memberships, name, group)
    }

    /** What a user owns after a change. When the memberships were listed, a user with a plain name
        owns the groups where a membership says so; when not, all groups the user belongs to if the
        user is a group owner of the platform, else none. Any other name owns nothing. */
    ghost predicate OwnersSet(name: string, role: Sessions.Role, listed: bool)
      reads this`memberships, this`groups
    {
      forall group | group in groups :: Owns(groups[group], name) <==> Plain(name) && Chosen(memberships, name, role, listed, group)
    }

    /** A store access of the server. A failing one is logged. */
    method Access(ghost fault: Fault) returns (ok: bool)
      modifies this`faults
      ensures faults == if ok then old(faults) else old(faults) + [fault]
    {
      ok := *;
      if !ok { faults := faults + [fault]; }
    }

    /** Why a membership change is refused, in the order of the checks. */
    ghost function Refusal(username: string, group: string, roleNames: seq<string>, remove: bool): Option<Problem>
      reads this`memberships, this`users, this`groups
    {
      if group !in groups then Some(GroupMissing)
      else if Validated(roleNames).None? then Some(UnknownRole)
      else if !remove && Validated(roleNames).value == {} then Some(RoleRequired)
      else if Fold(username) !in users then Some(UserMissing)
      else if users[Fold(username)].role != Sessions.Admin && remove && NowhereElse(memberships, username, group)
      then Some(GroupRequired)
      else None
    }

    constructor ()
      ensures Valid() && fresh(table)
      ensures memberships == [] && users == map[] && groups == map[] && table.sessions == map[]
    {
      memberships, users, groups, faults := [], map[], map[], [];
      table := new Sessions.SessionTable();
    }

    /** Chooses the groups the user is to own. That the memberships cannot be listed is not reported. */
    method SelectGroups(username: string, role: Sessions.Role, groupIds: seq<string>) returns (selected: set<string>, ghost listed: bool)
      modifies this`faults
      ensures faults == Seen(old(faults), listed)
      ensures selected == Selected(if listed then memberships else [], username, role, groupIds)
    {
      selected := {};
      var sawMembership := false;
      var ok := Access(OwnershipListing);
      listed := ok;
      if ok {
        for i := 0 to |memberships|
          invariant sawMembership <==> exists j :: 0 <= j < i && SameName(memberships[j].username, username)
          invariant selected == set j | 0 <= j < i && SameName(memberships[j].username, username)
            && GroupOwner in memberships[j].roles :: memberships[j].group
        {
          if !SameName(memberships[i].username, username) { continue; }
          sawMembership := true;
          if GroupOwner in memberships[i].roles { selected := selected + {memberships[i].group}; }
        }
      }
      if !sawMembership && role == Sessions.GroupOwner {
        for i := 0 to |groupIds|
          invariant selected == set id | id in groupIds[..i]
        {
          assert groupIds[..i + 1] == groupIds[..i] + [groupIds[i]];
          selected := selected + {groupIds[i]};
        }
        assert groupIds[..|groupIds|] == groupIds;
      }
    }

    /** Brings the owner lists into step with the user's memberships. A failing store stops it, unless
        it is the listing of the memberships that fails. */
    method SyncGroupOwnership(username: string, role: Sessions.Role, groupIds: seq<string>) returns (ok: bool, ghost listed: bool)
      modifies this`groups, this`faults
      ensures groups.Keys == old(groups).Keys
      ensures ok ==> faults == Seen(old(faults), listed)
      ensures !ok ==> StoppedBy(Seen(old(faults), listed), faults)
      ensures forall group | group in groups ::
        var selected := Selected(if listed then memberships else [], username, role, groupIds);
        var after := OwnersAfter(old(groups)[group], username, group in selected);
        groups[group] == after || (!ok && groups[group] == old(groups)[group])
    {
      hide *;
      var selected;
      selected, listed := SelectGroups(username, role, groupIds);
      ok := Access(GroupListing);
      if !ok {
        Stopped(Seen(old(faults), listed), GroupListing);
        return;
      }
      ghost var before := groups;
      var left := groups.Keys;
      while left != {}
        invariant left <= before.Keys == groups.Keys
        invariant faults == Seen(old(faults), listed)
        invariant forall group | group in groups ::
          groups[group] == if group in left then before[group] else OwnersAfter(before[group], username, group in selected)
      {
        var group :| group in left;
        left := left - {group};
        var next := NextOwners(groups[group], username, group in selected);
        if next == groups[group] { continue; }
        ok := Access(OwnerWrite(group));
        if !ok {
          Stopped(Seen(old(faults), listed), OwnerWrite(group));
          return;
        }
        groups := groups[group := next];
      }
      ok := true;
    }

    /** Sets or removes one group membership of a user: checks first, then the memberships, the
        user's platform role, the owner lists and the sessions. Every store access may fail, and the
        answer is decided by the checks and the accesses that failed.
        On success the user's roles are as asked, nobody else's memberships or ownership changed and
        no session of the user is left. The user then owns a group exactly when a membership there
        says so, unless the memberships could not be listed a second time: that is no failure of the
        change, and the owner lists agree exactly when the user's memberships are uniform. Whatever
        happens, a user who is not an Admin stays a member of some group. */
    method UpdateGroupMembership(username: string, group: string, roleNames: seq<string>, remove: bool)
      returns (problem: Option<Problem>)
      requires Valid()
      modifies this, table
      ensures Valid() && (old(MembersBelong()) ==> MembersBelong())
      ensures old(faults) <= faults
      ensures Explained(old(Refusal(username, group, roleNames, remove)), problem, faults[|old(faults)|..])
      ensures if Early(problem, faults[|old(faults)|..])
              then memberships == old(memberships) && users == old(users) && groups == old(groups) && table.sessions == old(table.sessions)
              else Validated(roleNames).Some? && RolesSet(old(memberships), memberships, username, group, Validated(roleNames).value, remove)
      ensures OthersOwnAsBefore(old(groups), groups, username) && OthersAsBefore(old(users), users, username)
      ensures problem.None? ==>
        && group in groups && Fold(username) in users && (remove || Validated(roleNames).value != {})
        && OwnersSet(username, users[Fold(username)].role, faults == old(faults))
        && (OwnersAgree(username) <==>
            if Plain(username) then faults == old(faults) || Uniform(memberships, groups.Keys, username, users[Fold(username)].role)
            else OwnerNowhere(memberships, groups.Keys, username))
        && RoleFits(old(users)[Fold(username)], users[Fold(username)], memberships)
        && (users[Fold(username)].role != Sessions.Admin ==> Belongs(memberships, username))
        && table.sessions == Sessions.WithoutUser(old(table.sessions), username)
    {
      hide RolesSet, Unrepeated, Validated, AllPlain, Plain, Belongs, NowhereElse, Uniform, Owns, OwnerRole, RoleFits, AllBelong, Keyed,
           Explained, Early, OthersAsBefore, OthersOwnAsBefore, Fold;
      ghost var refusal := Refusal(username, group, roleNames, remove);
      NothingSet(groups, users, username);
      RefusedFirst(faults, refusal);
      var ok := Access(GroupRead);
      if !ok {
        FailedFirst(old(faults), GroupRead, refusal, GroupMissing);
        return Some(GroupMissing);
      }
      if group !in groups { return Some(GroupMissing); }
      var roles := ValidatedGroupRoles(roleNames);
      if roles.None? { return Some(UnknownRole); }
      if !remove && |roles.value| == 0 { return Some(RoleRequired); }
      hide *;
      ok := Access(MembershipListing);
      if !ok {
        FailedFirst(old(faults), MembershipListing, refusal, StoreFailed);
        return Some(StoreFailed);
      }
      problem := Change(username, group, roleNames, roles.value, remove);
    }

    /** The rest of a membership change, once the memberships are listed. */
    method Change(username: string, group: string, ghost roleNames: seq<string>, roles: set<GroupRole>, remove: bool)
      returns (problem: Option<Problem>)
      requires Valid() && group in groups && Validated(roleNames) == Some(roles) && (remove || roles != {})
      modifies this, table
      ensures Valid() && (old(MembersBelong()) ==> MembersBelong())
      ensures old(faults) <= faults
      ensures Explained(old(Refusal(username, group, roleNames, remove)), problem, faults[|old(faults)|..])
      ensures if Early(problem, faults[|old(faults)|..])
              then memberships == old(memberships) && users == old(users) && groups == old(groups) && table.sessions == old(table.sessions)
              else Validated(roleNames).Some? && RolesSet(old(memberships), memberships, username, group, Validated(roleNames).value, remove)
      ensures OthersOwnAsBefore(old(groups), groups, username) && OthersAsBefore(old(users), users, username)
      ensures problem.None? ==>
        && group in groups && Fold(username) in users && (remove || Validated(roleNames).value != {})
        && OwnersSet(username, users[Fold(username)].role, faults == old(faults))
        && (OwnersAgree(username) <==>
            if Plain(username) then faults == old(faults) || Uniform(memberships, groups.Keys, username, users[Fold(username)].role)
            else OwnerNowhere(memberships, groups.Keys, username))
        && RoleFits(old(users)[Fold(username)], users[Fold(username)], memberships)
        && (users[Fold(username)].role != Sessions.Admin ==> Belongs(memberships, username))
        && table.sessions == Sessions.WithoutUser(old(table.sessions), username)
    {
      hide RolesSet, NextMemberships, Unrepeated, Validated, AllPlain, Plain, Belongs, NowhereElse, Uniform, Owns, OwnerRole, RoleFits,
           AllBelong, Keyed, GroupsOf, AllRoles, Explained, Early, Committed, CompatibleLegacyRole;
      ghost var refusal := Refusal(username, group, roleNames, remove);
      NothingSet(groups, users, username);
      RefusedFirst(faults, refusal);
      var next, allRoles, groupIds := ComputeNext(memberships, username, group, roles, remove);
      LeftWithout(memberships, username, group, roles, remove, next);
      var ok := Access(UserRead);
      if !ok {
        FailedFirst(old(faults), UserRead, refusal, StoreFailed);
        return Some(StoreFailed);
      }
      if Fold(username) !in users { return Some(UserMissing); }
      var user := users[Fold(username)];
      if user.role != Sessions.Admin && |next| == 0 { return Some(GroupRequired); }
      problem := Commit(username, group, roles, remove, next, allRoles, groupIds);
      CommittedExplains(problem, faults[|old(faults)|..]);
      if problem.None? { AgreeIff(groups, memberships, username, users[Fold(username)].role, faults == old(faults)); }
    }

    /** The writes, one after the other; a failing one leaves the earlier ones done. */
    method Commit(username: string, ghost group: string, ghost roles: set<GroupRole>, ghost remove: bool,
                  next: seq<Membership>, allRoles: set<GroupRole>, groupIds: seq<string>)
      returns (problem: Option<Problem>)
      requires Valid() && Fold(username) in users
      requires NextMemberships(memberships, username, group, roles, remove, next)
      requires allRoles == AllRoles(next) && groupIds == GroupsOf(next)
      requires users[Fold(username)].role != Sessions.Admin ==> next != []
      modifies this, table
      ensures Valid() && (old(MembersBelong()) ==> MembersBelong())
      ensures old(faults) <= faults && Committed(problem, faults[|old(faults)|..])
      ensures if faults == old(faults) + [MembershipWrite]
              then memberships == old(memberships) && users == old(users) && groups == old(groups) && table.sessions == old(table.sessions)
              else RolesSet(old(memberships), memberships, username, group, roles, remove)
      ensures OthersOwnAsBefore(old(groups), groups, username) && OthersAsBefore(old(users), users, username)
      ensures problem.None? ==>
        && OwnersSet(username, users[Fold(username)].role, faults == old(faults))
        && RoleFits(old(users)[Fold(username)], users[Fold(username)], memberships)
        && (users[Fold(username)].role != Sessions.Admin ==> Belongs(memberships, username))
        && table.sessions == Sessions.WithoutUser(old(table.sessions), username)
    {
      hide RolesSet, NextMemberships, Unrepeated, OthersOwnAsBefore, OthersAsBefore, AllPlain, Plain, Belongs, Held, Keyed, AllBelong, Fold,
           Committed, Seen, StoppedBy, Owns, OwnerRole, AllRoles, CompatibleLegacyRole, InGroups;
      NothingSet(groups, users, username);
      var ok := Access(MembershipWrite);
      if !ok {
        CommitFailed(old(faults), MembershipWrite);
        return Some(StoreFailed);
      }
      ghost var was, all := users, memberships;
      StoredUnder(users, username);
      RolesReplaced(memberships, username, group, roles, remove, next);
      HeldAfter(memberships, users[Fold(username)].username, username, next);
      memberships := ReplaceMemberships(memberships, username, next);
      StillBelong(was, users, all, memberships, username, group, roles, remove);
      var role;
      ok, role := StoreRole(username, allRoles);
      StillBelong(was, users, all, memberships, username, group, roles, remove);
      if !ok {
        CommitFailed(old(faults), RoleWrite);
        return Some(StoreFailed);
      }
      GroupsKept(all, username, group, roles, remove, next, memberships);
      ghost var listed;
      ok, listed := AlignOwners(username, role, groupIds);
      CommitEnds(old(faults), listed, ok, faults);
      if !ok { return Some(StoreFailed); }
      table.RevokeUserSessions(username);
      problem := None;
    }

    /** Names the owners of a group directly, each an enabled user with the platform role of a group
        owner. Nothing ties the list to memberships: afterwards the owners of this group agree with
        its memberships exactly when every listed name holds group_owner there and every member
        holding it is listed. Nobody's ownership of another group changes. */
    method SetOwners(group: string, value: string) returns (problem: Option<Problem>)
      requires Valid()
      modifies this`groups, this`faults
      ensures Valid() && old(faults) <= faults
      ensures problem.Some? ==> groups == old(groups)
      ensures problem.None? <==> faults == old(faults) && group in old(groups) && AllFit(Normalized([value]), users)
      ensures problem.None? ==>
        && groups == old(groups)[group := Normalized([value])]
        && (forall name :: OwnersAgree(name) <==>
              && (forall g | g in old(groups) && g != group :: Owns(old(groups)[g], name) <==> OwnerRole(memberships, name, g))
              && (Owns(Normalized([value]), name) <==> OwnerRole(memberships, name, group)))
        && ((forall name :: Owns(groups[group], name) <==> OwnerRole(memberships, name, group)) <==>
            && (forall name | name in NamesIn(value) :: OwnerRole(memberships, name, group))
            && AllListed(memberships, group, NamesIn(value)))
    {
      hide Unrepeated, Keyed, AllPlain, Owns, OwnerRole, Normalized, AllListed, NamesIn, Plain, Fold;
      var ok := Access(GroupRead);
      if !ok || group !in groups { return Some(GroupMissing); }
      var owners := NormalizeOwners([value]);
      NormalizedPlain([value]);
      for i := 0 to |owners|
        invariant faults == old(faults) && groups == old(groups) && AllFit(owners[..i], users)
      {
        assert owners[..i + 1] == owners[..i] + [owners[i]];
        var key := Fold(owners[i]);
        ok := Access(UserRead);
        if !ok || key !in users || !users[key].enabled || users[key].role != Sessions.GroupOwner {
          assert owners[i] in owners;
          return Some(OwnerUnfit(owners[i]));
        }
      }
      assert owners[..|owners|] == owners;
      ok := Access(OwnerWrite(group));
      if !ok { return Some(StoreFailed); }
      groups := groups[group := owners];
      problem := None;
      ListedAgreeIff(memberships, group, value);
      hide AllFit;
    }

    /** Anyone but an Admin gets the platform role their group roles call for. */
    method StoreRole(username: string, allRoles: set<GroupRole>) returns (ok: bool, role: Sessions.Role)
      requires Fold(username) in users
      modifies this`users, this`faults
      ensures faults == if ok then old(faults) else old(faults) + [RoleWrite]
      ensures users.Keys == old(users).Keys
      ensures role == if old(users)[Fold(username)].role == Sessions.Admin then Sessions.Admin else CompatibleLegacyRole(allRoles)
      ensures var user := old(users)[Fold(username)];
        users == old(users) || (user.role != Sessions.Admin && users == old(users)[Fold(username) := user.(role := role)])
      ensures ok ==> users[Fold(username)].role == role
      ensures OthersAsBefore(old(users), users, username)
    {
      var user := users[Fold(username)];
      role := user.role;
      ok := true;
      if role != Sessions.Admin {
        role := CompatibleLegacyRole(allRoles);
        if role != user.role {
          ok := Access(RoleWrite);
          if !ok { return; }
          users := users[Fold(username) := user.(role := role)];
        }
      }
    }

    /** The owner lists agree with the user's memberships, unless a write failed in between or the
        memberships could not be listed. */
    method AlignOwners(username: string, role: Sessions.Role, groupIds: seq<string>) returns (ok: bool, ghost listed: bool)
      requires Unrepeated(memberships) && InGroups(memberships, username, groupIds)
      requires forall group | group in groups :: AllPlain(groups[group])
      modifies this`groups, this`faults
      ensures groups.Keys == old(groups).Keys
      ensures forall group | group in groups :: AllPlain(groups[group])
      ensures OthersOwnAsBefore(old(groups), groups, username)
      ensures ok ==> faults == Seen(old(faults), listed)
      ensures !ok ==> StoppedBy(Seen(old(faults), listed), faults)
      ensures ok ==> OwnersSet(username, role, listed)
    {
      ghost var before := groups;
      ok, listed := SyncGroupOwnership(username, role, groupIds);
      ghost var selected := Selected(if listed then memberships else [], username, role, groupIds);
      OwnersMoved(before, groups, username, selected, ok);
      InGroupsBelongs(memberships, username, groupIds);
      hide Selected, OwnersAfter, Owns, Plain, AllPlain, OwnerRole, Unrepeated, InGroups, OthersOwnAsBefore, Seen, StoppedBy;
      forall group ensures group in selected <==> Chosen(memberships, username, role, listed, group) {
        if listed {
          SelectedIffOwnerRole(memberships, username, role, groupIds, group);
        } else {
          SelectedUnseen(memberships, username, role, groupIds, group);
        }
      }
    }
  }

  /** How a membership change ends once its checks passed. */
  ghost predicate Committed(problem: Option<Problem>, faults: seq<Fault>) {
    if problem.None? then faults == [] || faults == [OwnershipListing]
    else problem == Some(StoreFailed)
         && (faults == [MembershipWrite] || faults == [RoleWrite] || StoppedBy([], faults) || StoppedBy([OwnershipListing], faults))
  }

  /** How a membership change ends: without a failing access the checks alone decide, and the only
      failing access that is not reported is the second listing of the memberships. */
  ghost predicate Explained(refusal: Option<Problem>, problem: Option<Problem>, faults: seq<Fault>) {
    || (faults == [] && problem == refusal)
    || (faults == [GroupRead] && problem == Some(GroupMissing))
    || ((faults == [MembershipListing] || faults == [UserRead]) && problem == Some(StoreFailed))
    || (refusal.None? && Committed(problem, faults))
  }

  lemma RefusedFirst(before: seq<Fault>, refusal: Option<Problem>)
    ensures Explained(refusal, refusal, before[|before|..])
    ensures refusal.Some? ==> Early(refusal, before[|before|..])
  {
    assert before[|before|..] == [];
  }

  lemma FailedFirst(before: seq<Fault>, fault: Fault, refusal: Option<Problem>, problem: Problem)
    requires fault == GroupRead || fault == MembershipListing || fault == UserRead
    requires problem == if fault == GroupRead then GroupMissing else StoreFailed
    ensures Explained(refusal, Some(problem), (before + [fault])[|before|..])
    ensures Early(Some(problem), (before + [fault])[|before|..])
  {
    assert (before + [fault])[|before|..] == [fault];
  }

  lemma CommitFailed(before: seq<Fault>, fault: Fault)
    requires fault == MembershipWrite || fault == RoleWrite
    ensures Committed(Some(StoreFailed), (before + [fault])[|before|..])
  {
    assert (before + [fault])[|before|..] == [fault];
  }

  lemma CommitEnds(before: seq<Fault>, listed: bool, ok: bool, faults: seq<Fault>)
    requires if ok then faults == Seen(before, listed) else StoppedBy(Seen(before, listed), faults)
    ensures before <= faults && faults != before + [MembershipWrite]
    ensures Committed(if ok then None else Some(StoreFailed), faults[|before|..])
    ensures ok ==> (faults == before <==> listed)
  {
    var more := faults[|before|..];
    if ok {
      assert more == if listed then [] else [OwnershipListing];
    } else {
      assert StoppedBy(Seen([], listed), more);
    }
  }

  lemma CommittedExplains(problem: Option<Problem>, faults: seq<Fault>)
    requires Committed(problem, faults)
    ensures Explained(None, problem, faults)
    ensures Early(problem, faults) <==> faults == [MembershipWrite]
    ensures faults != [] ==> problem.Some? || faults == [OwnershipListing]
    ensures problem.None? ==> !Early(problem, faults)
  {
  }

  /** The change ended before its first write. */
  ghost predicate Early(problem: Option<Problem>, faults: seq<Fault>) {
    && problem.Some?
    && (faults == [] || faults == [GroupRead] || faults == [MembershipListing] || faults == [UserRead] || faults == [MembershipWrite])
  }

  ghost function Seen(before: seq<Fault>, listed: bool): seq<Fault> {
    if listed then before else before + [OwnershipListing]
  }

  /** One more access failed, and the owner lists are not all written. */
  ghost predicate StoppedBy(before: seq<Fault>, faults: seq<Fault>) {
    |faults| == |before| + 1 && before <= faults && (faults[|before|].GroupListing? || faults[|before|].OwnerWrite?)
  }

  lemma Stopped(before: seq<Fault>, fault: Fault)
    requires fault.GroupListing? || fault.OwnerWrite?
    ensures StoppedBy(before, before + [fault])
  {
  }

  predicate AllFit(names: seq<string>, users: map<string, User>) {
    forall name | name in names ::
      Fold(name) in users && users[Fold(name)].enabled && users[Fold(name)].role == Sessions.GroupOwner
  }

  /** Every member of the group who holds group_owner is on the list. */
  predicate AllListed(memberships: seq<Membership>, group: string, names: seq<string>) {
    forall m | m in memberships && m.group == group && GroupOwner in m.roles :: Owns(names, m.username)
  }

  /** A list of names says what the memberships say exactly when the names on it hold group_owner
      and the members holding it are on it. */
  lemma ListedAgreeIff(memberships: seq<Membership>, group: string, value: string)
    requires Unrepeated(memberships)
    ensures var names := NamesIn(value);
      (forall name :: Owns(Normalized([value]), name) <==> OwnerRole(memberships, name, group)) <==>
        (forall name | name in names :: OwnerRole(memberships, name, group)) && AllListed(memberships, group, names)
  {
    var names := NamesIn(value);
    assert Pieces([value]) == names by {
      assert [value][..0] == [];
    }
    forall name ensures Owns(Normalized([value]), name) <==> Owns(names, name) { NormalizedKeeps([value], name); }
    if (forall name | name in names :: OwnerRole(memberships, name, group)) && AllListed(memberships, group, names) {
      forall name ensures Owns(names, name) <==> OwnerRole(memberships, name, group) {
        NamesAgree(memberships, group, names, name);
      }
    }
    if forall name :: Owns(names, name) <==> OwnerRole(memberships, name, group) {
      forall i | 0 <= i < |names| ensures OwnerRole(memberships, names[i], group) { assert Owns(names, names[i]); }
      forall i | 0 <= i < |memberships| && memberships[i].group == group && GroupOwner in memberships[i].roles
        ensures Owns(names, memberships[i].username)
      {
        RolesOfAt(memberships, i);
      }
    }
  }

  lemma {:induction false} NamesAgree(memberships: seq<Membership>, group: string, names: seq<string>, name: string)
    requires Unrepeated(memberships)
    requires (forall other | other in names :: OwnerRole(memberships, other, group)) && AllListed(memberships, group, names)
    ensures Owns(names, name) <==> OwnerRole(memberships, name, group)
  {
    if Owns(names, name) {
      var i :| 0 <= i < |names| && SameName(names[i], name);
      SameNameSameRoles(memberships, names[i], name, group);
      assert OwnerRole(memberships, names[i], group);
    }
    if OwnerRole(memberships, name, group) {
      RolesOfNone(memberships, name, group);
      var i :| 0 <= i < |memberships| && SameName(memberships[i].username, name) && memberships[i].group == group;
      RolesOfAt(memberships, i);
      SameNameSameRoles(memberships, memberships[i].username, name, group);
      assert memberships[i] in memberships;
      var j :| 0 <= j < |names| && SameName(names[j], memberships[i].username);
      assert SameName(names[j], name);
    }
  }

  lemma {:induction false} OnlyOne(name: string)
    requires Plain(name)
    ensures Normalized([name]) == [name] && Owns([name], name)
  {
    PlainPieces([name]);
    assert Unique([name]) == [name] by {
      assert Unique([]) == [] && [name][..0] == [];
    }
    OneSorted(name);
    assert [name][0] == name;
    hide Owns, Unique, Pieces, Trimmed;
  }

  lemma OneSorted(name: string)
    ensures TextOrder.Sorted([name]) == [name]
  {
    TextOrder.SortSound([], [name]);
    var sorted := TextOrder.Sorted([name]);
    assert sorted[0] in sorted;
  }

  /** An approver has the platform role of a group owner and may be named owner of a group, without
      holding group_owner in it: the list and the memberships disagree then. */
  lemma ApproverNamedOwner()
    ensures var memberships, users := [Membership("bob", "A", {DeploymentApprover})], map["bob" := User("bob", Sessions.GroupOwner, true)];
      && RoleFits(users["bob"], users["bob"], memberships) && AllFit(Normalized(["bob"]), users)
      && Owns(Normalized(["bob"]), "bob") && !OwnerRole(memberships, "bob", "A")
  {
    var memberships, users := [Membership("bob", "A", {DeploymentApprover})], map["bob" := User("bob", Sessions.GroupOwner, true)];
    assert Plain("bob");
    OnlyOne("bob");
    hide Normalized, Owns;
    assert RolesOf(memberships, "bob", "A") == Some({DeploymentApprover});
    assert memberships[0] == Membership("bob", "A", {DeploymentApprover});
    assert DeploymentApprover in Held(memberships, "bob") && GroupOwner !in Held(memberships, "bob");
    assert Fold("bob") == "bob";
  }

  lemma OwnersMoved(before: map<string, seq<string>>, after: map<string, seq<string>>, name: string, chosen: set<string>, all: bool)
    requires before.Keys == after.Keys && forall group | group in before :: AllPlain(before[group])
    requires forall group | group in before ::
      after[group] == OwnersAfter(before[group], name, group in chosen) || (!all && after[group] == before[group])
    ensures forall group | group in after :: AllPlain(after[group])
    ensures OthersOwnAsBefore(before, after, name)
    ensures all ==> forall group | group in after :: Owns(after[group], name) <==> Plain(name) && group in chosen
  {
    PlainNamesIn(name);
    hide OwnersAfter, Plain, AllPlain, Owns, NamesIn;
    forall group | group in after ensures AllPlain(after[group]) {
      OwnershipDecided(before[group], name, group in chosen, name);
    }
    forall group, other | group in before && !SameName(name, other)
      ensures Owns(before[group], other) ==> Owns(after[group], other)
      ensures Owns(after[group], other) ==> Owns(before[group], other) || Owns(NamesIn(name), other)
    {
      OwnershipDecided(before[group], name, group in chosen, other);
    }
    if all {
      forall group | group in after ensures Owns(after[group], name) <==> Plain(name) && group in chosen {
        OwnershipDecided(before[group], name, group in chosen, name);
      }
    }
  }

  /** With a plain name, nobody else's ownership changes at all. */
  lemma PlainOthersKept(before: map<string, seq<string>>, after: map<string, seq<string>>, name: string)
    requires OthersOwnAsBefore(before, after, name) && Plain(name)
    ensures forall group, other | group in before && !SameName(name, other) :: Owns(after[group], other) <==> Owns(before[group], other)
  {
    PlainNamesIn(name);
    forall other | !SameName(name, other) ensures !Owns(NamesIn(name), other) { assert NamesIn(name) == [name]; }
    hide Plain, NamesIn;
  }

  /** The user's roles in one group are set or removed, and no other membership is touched. */
  ghost predicate RolesSet(before: seq<Membership>, after: seq<Membership>, name: string, group: string, roles: set<GroupRole>, remove: bool) {
    && (forall g :: RolesOf(after, name, g) == if g == group then (if remove then None else Some(roles)) else RolesOf(before, name, g))
    && (forall other, g | !SameName(name, other) :: RolesOf(after, other, g) == RolesOf(before, other, g))
    && forall other | !SameName(name, other) :: Belongs(after, other) <==> Belongs(before, other)
  }

  /** Nobody else loses a group, and at most those whom the name is read as gain one. */
  ghost predicate OthersOwnAsBefore(before: map<string, seq<string>>, after: map<string, seq<string>>, name: string) {
    && before.Keys == after.Keys
    && forall group, other | group in before && !SameName(name, other) ::
         && (Owns(before[group], other) ==> Owns(after[group], other))
         && (Owns(after[group], other) ==> Owns(before[group], other) || Owns(NamesIn(name), other))
  }

  predicate OthersAsBefore(before: map<string, User>, after: map<string, User>, name: string) {
    before.Keys == after.Keys && forall key | key in before && key != Fold(name) :: before[key] == after[key]
  }

  /** All roles the user holds, in whatever group. */
  function Held(memberships: seq<Membership>, name: string): set<GroupRole> {
    set i, role | 0 <= i < |memberships| && SameName(memberships[i].username, name) && role in memberships[i].roles :: role
  }

  /** An Admin stays one; anyone else has the platform role the held group roles call for. */
  predicate RoleFits(before: User, after: User, memberships: seq<Membership>) {
    && after.username == before.username && after.enabled == before.enabled
    && after.role == if before.role == Sessions.Admin then Sessions.Admin else CompatibleLegacyRole(Held(memberships, after.username))
  }

  lemma {:induction false} AllRolesAre(next: seq<Membership>, role: GroupRole)
    ensures role in AllRoles(next) <==> exists i :: 0 <= i < |next| && role in next[i].roles
  {
    if next != [] {
      var last := |next| - 1;
      AllRolesAre(next[..last], role);
      assert forall i | 0 <= i < last :: next[i] == next[..last][i];
    }
  }

  lemma HeldAppend(a: seq<Membership>, b: seq<Membership>, name: string)
    ensures Held(a + b, name) == Held(a, name) + Held(b, name)
  {
    var all := a + b;
    forall role | role in Held(a, name) ensures role in Held(all, name) {
      var i :| 0 <= i < |a| && SameName(a[i].username, name) && role in a[i].roles;
      assert all[i] == a[i];
    }
    forall role | role in Held(b, name) ensures role in Held(all, name) {
      var i :| 0 <= i < |b| && SameName(b[i].username, name) && role in b[i].roles;
      assert all[|a| + i] == b[i];
    }
    forall role | role in Held(all, name) ensures role in Held(a, name) + Held(b, name) {
      var i :| 0 <= i < |all| && SameName(all[i].username, name) && role in all[i].roles;
      assert all[i] == if i < |a| then a[i] else b[i - |a|];
    }
  }

  lemma HeldStored(next: seq<Membership>, stored: string, name: string)
    requires SameName(stored, name)
    ensures Held(Stored(next, name), stored) == AllRoles(next)
  {
    forall role ensures role in Held(Stored(next, name), stored) <==> role in AllRoles(next) {
      AllRolesAre(next, role);
      if role in AllRoles(next) {
        var i :| 0 <= i < |next| && role in next[i].roles;
        assert Stored(next, name)[i].roles == next[i].roles;
      }
    }
  }

  lemma HeldAfter(all: seq<Membership>, stored: string, name: string, next: seq<Membership>)
    requires SameName(stored, name)
    ensures Held(ReplaceMemberships(all, name, next), stored) == AllRoles(next)
  {
    var others := OfOthers(all, name);
    OfOthersMembers(all, name);
    assert Held(others, stored) == {} by {
      forall i | 0 <= i < |others| ensures !SameName(others[i].username, stored) { assert others[i] in others; }
    }
    HeldAppend(others, Stored(next, name), stored);
    HeldStored(next, stored, name);
  }

  predicate Keyed(users: map<string, User>) {
    forall key | key in users :: Fold(users[key].username) == key
  }

  ghost predicate AllBelong(users: map<string, User>, memberships: seq<Membership>) {
    forall key | key in users && users[key].role != Sessions.Admin :: Belongs(memberships, users[key].username)
  }

  lemma StillBelong(was: map<string, User>, users: map<string, User>, before: seq<Membership>, after: seq<Membership>,
                    name: string, group: string, roles: set<GroupRole>, remove: bool)
    requires Keyed(was) && OthersAsBefore(was, users, name) && Fold(name) in users
    requires users[Fold(name)].username == was[Fold(name)].username
    requires RolesSet(before, after, name, group, roles, remove)
    requires users[Fold(name)].role != Sessions.Admin ==> Belongs(after, name)
    ensures Keyed(users)
    ensures AllBelong(was, before) ==> AllBelong(users, after)
    ensures users[Fold(name)].role != Sessions.Admin ==> Belongs(after, users[Fold(name)].username)
  {
    BelongsSame(after, name, users[Fold(name)].username);
    forall key | key in users && key != Fold(name) ensures !SameName(name, users[key].username) { }
    hide Belongs;
  }

  lemma StoredUnder(users: map<string, User>, name: string)
    requires Keyed(users) && Fold(name) in users
    ensures SameName(users[Fold(name)].username, name)
  {
  }

  lemma BelongsSame(memberships: seq<Membership>, a: string, b: string)
    requires SameName(a, b)
    ensures Belongs(memberships, a) <==> Belongs(memberships, b)
  {
  }

  lemma NothingSet(groups: map<string, seq<string>>, users: map<string, User>, name: string)
    ensures OthersOwnAsBefore(groups, groups, name) && OthersAsBefore(users, users, name)
  {
  }

  ghost predicate NowhereElse(memberships: seq<Membership>, name: string, group: string) {
    forall g | g != group :: RolesOf(memberships, name, g).None?
  }

  /** Nothing is left exactly when the only membership is removed. */
  lemma LeftWithout(all: seq<Membership>, name: string, group: string, roles: set<GroupRole>, remove: bool, next: seq<Membership>)
    requires NextMemberships(all, name, group, roles, remove, next)
    ensures next == [] <==> remove && NowhereElse(all, name, group)
  {
    if next != [] { RolesOfNone(next, name, next[0].group); }
    if next == [] {
      assert RolesOf(next, name, group).None?;
      forall g | g != group ensures RolesOf(all, name, g).None? { assert RolesOf(next, name, g).None?; }
    }
  }

  /** The groups the user belongs to afterwards. */
  lemma GroupsKept(all: seq<Membership>, name: string, group: string, roles: set<GroupRole>, remove: bool,
                   next: seq<Membership>, after: seq<Membership>)
    requires NextMemberships(all, name, group, roles, remove, next) && RolesSet(all, after, name, group, roles, remove)
    ensures InGroups(after, name, GroupsOf(next))
  {
    forall g ensures g in GroupsOf(next) <==> RolesOf(after, name, g).Some? {
      assert RolesOf(after, name, g) == RolesOf(next, name, g);
      RolesOfNone(next, name, g);
      if g in GroupsOf(next) {
        var i :| 0 <= i < |next| && GroupsOf(next)[i] == g;
        assert SameName(next[i].username, name);
      } else {
        forall i | 0 <= i < |next| ensures next[i].group != g { assert GroupsOf(next)[i] in GroupsOf(next); }
      }
    }
  }

  /** When the owner lists agree with the memberships after a change. */
  lemma AgreeIff(groups: map<string, seq<string>>, memberships: seq<Membership>, name: string, role: Sessions.Role, listed: bool)
    requires forall group | group in groups :: Owns(groups[group], name) <==> Plain(name) && Chosen(memberships, name, role, listed, group)
    ensures (forall group | group in groups :: Owns(groups[group], name) <==> OwnerRole(memberships, name, group)) <==>
      if Plain(name) then listed || Uniform(memberships, groups.Keys, name, role) else OwnerNowhere(memberships, groups.Keys, name)
  {
    hide Owns, Plain;
  }

  lemma RolesReplaced(all: seq<Membership>, name: string, group: string, roles: set<GroupRole>, remove: bool, next: seq<Membership>)
    requires Unrepeated(all) && NextMemberships(all, name, group, roles, remove, next)
    ensures var after := ReplaceMemberships(all, name, next);
      && Unrepeated(after) && RolesSet(all, after, name, group, roles, remove)
      && (Belongs(after, name) <==> next != [])
  {
    var after := ReplaceMemberships(all, name, next);
    Replaced(all, name, next, name, group);
    forall other, g
      ensures SameName(name, other) ==> RolesOf(after, other, g) == RolesOf(next, name, g)
      ensures !SameName(name, other) ==>
        RolesOf(after, other, g) == RolesOf(all, other, g) && (Belongs(after, other) <==> Belongs(all, other))
    {
      Replaced(all, name, next, other, g);
    }
  }

  method NextOwners(owners: seq<string>, username: string, chosen: bool) returns (next: seq<string>)
    ensures next == OwnersAfter(owners, username, chosen)
  {
    next := [];
    for i := 0 to |owners|
      invariant next == Without(owners[..i], username)
    {
      assert owners[..i + 1][..i] == owners[..i];
      if !SameName(owners[i], username) { next := next + [owners[i]]; }
    }
    assert owners[..|owners|] == owners;
    if chosen { next := next + [username]; } else { assert next + [] == next; }
    next := NormalizeOwners(next);
  }

  lemma UniqueSnoc(names: seq<string>, name: string)
    ensures Unique(names + [name]) == if Owns(Unique(names), name) then Unique(names) else Unique(names) + [name]
  {
    assert (names + [name])[..|names|] == names;
    UniqueKeeps(names, name);
  }

  lemma TrimmedStep(pieces: seq<string>, i: nat)
    requires i < |pieces|
    ensures Trimmed(pieces[..i + 1]) == Trimmed(pieces[..i]) + if Trim(pieces[i]) == "" then [] else [Trim(pieces[i])]
  {
    assert pieces[..i + 1][..i] == pieces[..i];
  }

  /** The folded names on the list. */
  ghost predicate Tracks(seen: set<string>, names: seq<string>) {
    forall name :: Fold(name) in seen <==> Owns(names, name)
  }

  lemma TracksSnoc(seen: set<string>, names: seq<string>, name: string)
    requires Tracks(seen, names)
    ensures Fold(name) in seen <==> Owns(names, name)
    ensures Tracks(seen + {Fold(name)}, names + [name])
  {
    forall other ensures Fold(other) in seen + {Fold(name)} <==> Owns(names + [name], other) { OwnsSnoc(names, name, other); }
  }

  lemma PiecesStep(before: seq<string>, pieces: seq<string>, i: nat)
    requires i < |pieces|
    ensures var so, owner := Unique(before + Trimmed(pieces[..i])), Trim(pieces[i]);
      Unique(before + Trimmed(pieces[..i + 1])) == if owner == "" || Owns(so, owner) then so else so + [owner]
  {
    var owner := Trim(pieces[i]);
    TrimmedStep(pieces, i);
    if owner != "" {
      assert before + Trimmed(pieces[..i + 1]) == (before + Trimmed(pieces[..i])) + [owner];
      UniqueSnoc(before + Trimmed(pieces[..i]), owner);
    } else {
      assert Trimmed(pieces[..i + 1]) == Trimmed(pieces[..i]);
    }
  }

  /** Adds the names of one comma-separated entry that have not been seen. */
  method AddNames(value: string, ghost before: seq<string>, result: seq<string>, seen: set<string>)
    returns (names: seq<string>, known: set<string>)
    requires result == Unique(before) && Tracks(seen, result)
    ensures names == Unique(before + NamesIn(value)) && Tracks(known, names)
  {
    names, known := result, seen;
    var pieces := Split(value, ',');
    assert before + Trimmed(pieces[..0]) == before;
    hide *;
    for i := 0 to |pieces|
      invariant names == Unique(before + Trimmed(pieces[..i]))
      invariant Tracks(known, names)
    {
      PiecesStep(before, pieces, i);
      var owner := Trim(pieces[i]);
      if owner == "" { continue; }
      TracksSnoc(known, names, owner);
      if Fold(owner) in known { continue; }
      names, known := names + [owner], known + {Fold(owner)};
    }
    assert pieces[..|pieces|] == pieces;
  }

  method NormalizeOwners(values: seq<string>) returns (owners: seq<string>)
    ensures owners == Normalized(values)
  {
    owners := [];
    var seen := {};
    for i := 0 to |values|
      invariant owners == Unique(Pieces(values[..i])) && Tracks(seen, owners)
    {
      assert values[..i + 1][..i] == values[..i];
      owners, seen := AddNames(values[i], Pieces(values[..i]), owners, seen);
    }
    assert values[..|values|] == values;
    owners := TextOrder.Sorted(owners);
  }
}
