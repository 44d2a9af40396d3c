/** Roles and owner lists, said by the names in them alone. */
module IdentityOutcome {
  import opened Wrappers
  import opened Names
  import opened Texts
  import opened Identity
  import TextOrder
  import Sessions

  // ---------- Roles ----------

  /** The platform role that group roles call for. */
  lemma LegacyRoleExactly(roles: set<GroupRole>)
    ensures var role := CompatibleLegacyRole(roles);
      && (role == Sessions.GroupOwner <==> GroupOwner in roles || DeploymentApprover in roles)
      && (role == Sessions.Operator <==> GroupOwner !in roles && DeploymentApprover !in roles
                                         && (ConfigurationEditor in roles || DeploymentOperator in roles))
      && role != Sessions.Admin
  {
  }

  /** Some membership of the user has the role. */
  ghost predicate Holds(memberships: seq<Membership>, name: string, role: GroupRole) {
    exists m :: m in memberships && SameName(m.username, name) && role in m.roles
  }

  lemma HeldExactly(memberships: seq<Membership>, name: string, role: GroupRole)
    ensures role in Held(memberships, name) <==> Holds(memberships, name, role)
  {
    hide SameName;
    if m :| m in memberships && SameName(m.username, name) && role in m.roles {
      var i :| 0 <= i < |memberships| && memberships[i] == m;
    }
  }

  /** The user is the same one, enabled or not as before; an Admin stays one, and anybody else has the role
      that the memberships call for. */
  lemma RoleFitsExactly(before: User, after: User, memberships: seq<Membership>)
    ensures RoleFits(before, after, memberships) <==>
      && after == before.(role := after.role)
      && (before.role == Sessions.Admin ==> after.role == Sessions.Admin)
      && (before.role != Sessions.Admin ==>
            var owns := Holds(memberships, after.username, GroupOwner) || Holds(memberships, after.username, DeploymentApprover);
            var edits := Holds(memberships, after.username, ConfigurationEditor) || Holds(memberships, after.username, DeploymentOperator);
            && (owns ==> after.role == Sessions.GroupOwner)
            && (!owns && edits ==> after.role == Sessions.Operator)
            && (!owns && !edits ==> after.role == Sessions.Viewer))
  {
    HeldExactly(memberships, after.username, GroupOwner);
    HeldExactly(memberships, after.username, DeploymentApprover);
    HeldExactly(memberships, after.username, ConfigurationEditor);
    HeldExactly(memberships, after.username, DeploymentOperator);
    hide Held, Holds;
  }

  function NameOf(role: GroupRole): string {
    match role
    case GroupOwner => "group_owner"
    case ConfigurationEditor => "configuration_editor"
    case DeploymentApprover => "deployment_approver"
    case DeploymentOperator => "deployment_operator"
    case Auditor => "auditor"
    case Viewer => "viewer"
  }

  lemma ParsedExactly(text: string, role: GroupRole)
    ensures ParseRole(text) == Some(role) <==> text == NameOf(role)
  {
    if text == NameOf(role) {
      match role {
        case GroupOwner =>
        case ConfigurationEditor =>
        case DeploymentApprover =>
        case DeploymentOperator =>
        case Auditor =>
        case Viewer =>
      }
    }
  }

  /** The text is blank or, without surrounding blanks, the name of a role. */
  predicate Acceptable(text: string) {
    Trim(text) == "" || exists role :: Means(text, role)
  }

  predicate Means(text: string, role: GroupRole) {
    Trim(text) == NameOf(role)
  }

  lemma AcceptableExactly(text: string)
    ensures Acceptable(text) <==> Trim(text) == "" || ParseRole(Trim(text)).Some?
    ensures forall role :: Means(text, role) <==> ParseRole(Trim(text)) == Some(role)
    ensures Trim(text) == "" ==> forall role :: !Means(text, role)
  {
    forall role ensures Means(text, role) <==> ParseRole(Trim(text)) == Some(role) { ParsedExactly(Trim(text), role); }
    forall role: GroupRole ensures NameOf(role) != "" { }
    hide ParseRole, NameOf, Trim;
    if ParseRole(Trim(text)).Some? { assert Means(text, ParseRole(Trim(text)).value); }
  }

  /** The names are accepted exactly when each is acceptable; the roles are then exactly the named ones. */
  lemma {:induction false} ValidatedExactly(values: seq<string>)
    ensures Validated(values).Some? <==> forall value | value in values :: Acceptable(value)
    ensures Validated(values).Some? ==> forall role :: role in Validated(values).value <==> exists value :: value in values && Means(value, role)
  {
    if values != [] {
      var before, last := values[..|values| - 1], values[|values| - 1];
      ValidatedExactly(before);
      AcceptableExactly(last);
      assert forall value :: value in values <==> value in before || value == last;
      hide ParseRole, NameOf, Trim, Acceptable, Means;
    }
  }

  // ---------- Owner lists ----------

  /** The piece at this place is the first spelling of its name. */
  predicate FirstSpelling(pieces: seq<string>, i: nat) {
    i < |pieces| && forall j | 0 <= j < i :: !SameName(pieces[j], pieces[i])
  }

  /** The name is the first spelling of somebody among the pieces. */
  ghost predicate SpeltFirst(pieces: seq<string>, name: string) {
    exists i: nat :: FirstSpelling(pieces, i) && pieces[i] == name
  }

  lemma {:induction false} UniqueExactly(names: seq<string>, name: string)
    ensures name in Unique(names) <==> SpeltFirst(names, name)
    ensures forall i, j :: 0 <= i < j < |Unique(names)| ==> !SameName(Unique(names)[i], Unique(names)[j])
  {
    if names != [] {
      var last := |names| - 1;
      var before := names[..last];
      UniqueExactly(before, name);
      UniqueKeeps(before, names[last]);
      SpellingSnoc(names, name);
      LastSpelling(names);
      hide FirstSpelling, SpeltFirst, SameName;
      if !Owns(before, names[last]) { NotOwned(Unique(before), names[last]); }
    }
  }

  lemma NotOwned(owners: seq<string>, name: string)
    requires !Owns(owners, name)
    ensures forall i :: 0 <= i < |owners| ==> !SameName(owners[i], name)
  {
  }

  lemma LastSpelling(names: seq<string>)
    requires names != []
    ensures FirstSpelling(names, |names| - 1) <==> !Owns(names[..|names| - 1], names[|names| - 1])
  {
  }

  lemma SpellingSnoc(names: seq<string>, name: string)
    requires names != []
    ensures var last := |names| - 1;
      SpeltFirst(names, name) <==>
        || SpeltFirst(names[..last], name)
        || (FirstSpelling(names, last) && names[last] == name)
  {
    var last := |names| - 1;
    var before := names[..last];
    hide SameName;
    if i: nat :| FirstSpelling(before, i) && before[i] == name {
      assert forall j :: 0 <= j <= i ==> before[j] == names[j];
      assert FirstSpelling(names, i);
    }
    if i: nat :| FirstSpelling(names, i) && names[i] == name {
      if i < last {
        assert forall j :: 0 <= j <= i ==> before[j] == names[j];
        assert FirstSpelling(before, i);
      }
    }
  }

  /** A normalised list is in byte order and names nobody twice; its entries are exactly the first
      spellings of the names. */
  lemma NormalizedExactly(values: seq<string>, name: string)
    ensures var owners, pieces := Normalized(values), Pieces(values);
      && TextOrder.InOrder([], owners)
      && (forall i, j :: 0 <= i < j < |owners| ==> !SameName(owners[i], owners[j]))
      && (name in owners <==> SpeltFirst(pieces, name))
  {
    var pieces := Pieces(values);
    UniqueExactly(pieces, name);
    TextOrder.SortSound([], Unique(pieces));
    OnceSorted(Unique(pieces));
    assert name in Normalized(values) <==> name in Unique(pieces);
    hide Unique, Pieces, TextOrder.Sort, SpeltFirst, SameName;
  }

  lemma OnceSorted(names: seq<string>)
    requires forall i, j :: 0 <= i < j < |names| ==> !SameName(names[i], names[j])
    ensures var sorted := TextOrder.Sorted(names);
      forall i, j :: 0 <= i < j < |sorted| ==> !SameName(sorted[i], sorted[j])
  {
    TextOrder.SortSound([], names);
    forall i, j | 0 <= i < j < |names| ensures names[i] != names[j] { assert !SameName(names[i], names[j]); }
    TextOrder.SortKeepsDistinct([], names);
    var sorted := TextOrder.Sorted(names);
    forall i, j | 0 <= i < j < |sorted| ensures !SameName(sorted[i], sorted[j]) {
      assert sorted[i] in names && sorted[j] in names && sorted[i] != sorted[j];
      var k :| 0 <= k < |names| && names[k] == sorted[i];
      var l :| 0 <= l < |names| && names[l] == sorted[j];
      assert if k < l then !SameName(names[k], names[l]) else !SameName(names[l], names[k]);
    }
  }

  /** The names are the trimmed, non-blank parts between the commas. */
  lemma {:induction false} PiecesExactly(values: seq<string>, name: string)
    ensures name in Pieces(values) <==> name != "" && exists value :: value in values && exists part :: part in Split(value, ',') && Trim(part) == name
  {
    if values != [] {
      var before, last := values[..|values| - 1], values[|values| - 1];
      PiecesExactly(before, name);
      TrimmedExactly(Split(last, ','), name);
      assert forall value :: value in values <==> value in before || value == last;
      hide Split, Trim, Trimmed;
    }
  }

  lemma {:induction false} TrimmedExactly(parts: seq<string>, name: string)
    ensures name in Trimmed(parts) <==> name != "" && exists part :: part in parts && Trim(part) == name
  {
    if parts != [] {
      TrimmedExactly(parts[..|parts| - 1], name);
      assert forall part :: part in parts <==> part in parts[..|parts| - 1] || part == parts[|parts| - 1];
      hide Trim;
    }
  }

  // ---------- Memberships ----------

  /** Replacing a user's memberships keeps exactly those of everybody else, and stores the new ones under
      the given spelling of the name. */
  lemma {:induction false} ReplacedExactly(memberships: seq<Membership>, name: string, next: seq<Membership>, m: Membership)
    ensures m in ReplaceMemberships(memberships, name, next) <==>
      || (m in memberships && !SameName(m.username, name))
      || (m.username == name && exists i :: 0 <= i < |next| && next[i].group == m.group && next[i].roles == m.roles)
  {
    OthersExactly(memberships, name, m);
    var stored := Stored(next, name);
    if i :| 0 <= i < |next| && next[i].group == m.group && next[i].roles == m.roles && m.username == name {
      assert stored[i] == m;
    }
    if m in stored {
      var i :| 0 <= i < |stored| && stored[i] == m;
      assert next[i].group == m.group && next[i].roles == m.roles;
    }
  }

  lemma {:induction false} OthersExactly(memberships: seq<Membership>, name: string, m: Membership)
    ensures m in OfOthers(memberships, name) <==> m in memberships && !SameName(m.username, name)
  {
    if memberships != [] { OthersExactly(memberships[..|memberships| - 1], name, m); }
    hide SameName;
  }
}
