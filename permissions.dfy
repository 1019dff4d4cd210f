/**
 * `YamlPermissionManager`: who may do what.
 *
 * Two maps, user id -> granted permission strings and role id -> granted
 * permission strings, updated in place by add, remove, clear and load. A
 * member is authorized for a permission when one of the strings granted to
 * its user, or to one of its roles, matches it.
 *
 * Whether one granted string matches a required one is decided by
 * `PermissionNode.matches`, which is not part of this model: every query
 * takes it as a parameter `matches(granted, required)`, and every property
 * below holds whatever that relation is.
 */
module Permissions {
  import opened Wrappers
  import opened Yaml

  /** One namespace of the store: actor id -> granted permission strings. */
  type Grants = map<string, set<string>>

  /** `new PermissionNode(granted).matches(required)`. */
  type Matcher = (string, string) -> bool

  /** A guild member: its user id and the ids of its roles, in order. */
  datatype Member = Member(userId: string, roleIds: seq<string>)

  /** What `load` leaves in the two maps, and whether it fell back to
      `createDefaultConfig`, which saves the maps as they then stand. */
  datatype Loaded = Loaded(users: Grants, roles: Grants, wroteDefault: bool)

  // ---------------------------------------------------------------------
  // Lower-casing, as the store normalizes every permission it is given
  // ---------------------------------------------------------------------

  function LowerChar(c: char): char
  {
    if 'A' <= c <= 'Z' then (c as int + 32) as char else c
  }

  /** `String.toLowerCase` on ASCII letters: no capital letter is left, and
      every character that is not a capital letter is kept. */
  function Lower(s: string): (r: string)
    ensures |r| == |s|
    ensures forall i :: 0 <= i < |r| ==> !('A' <= r[i] <= 'Z')
    ensures forall i :: 0 <= i < |s| && !('A' <= s[i] <= 'Z') ==> r[i] == s[i]
  {
    seq(|s|, i requires 0 <= i < |s| => LowerChar(s[i]))
  }

  /** Lower-casing twice is lower-casing once, so a permission the command
      layer has already lower-cased is stored unchanged. */
  lemma LowerIdempotent(s: string)
    ensures Lower(Lower(s)) == Lower(s)
  {
  }

  // ---------------------------------------------------------------------
  // The store's operations on one namespace
  // ---------------------------------------------------------------------

  /** The getters' answer: a copy of the actor's set, empty when absent. */
  function GrantsOf(m: Grants, id: string): set<string>
  {
    if id in m then m[id] else {}
  }

  /** No actor maps to an empty set. */
  ghost predicate NoEmptyEntries(m: Grants)
  {
    forall id :: id in m ==> m[id] != {}
  }

  /** `computeIfAbsent(id, new set).add(p)`. */
  function WithGrant(m: Grants, id: string, p: string): (r: Grants)
    ensures r.Keys == m.Keys + {id}
    ensures GrantsOf(r, id) == GrantsOf(m, id) + {p}
    ensures forall other :: other != id ==> GrantsOf(r, other) == GrantsOf(m, other)
  {
    m[id := GrantsOf(m, id) + {p}]
  }

  /** Removing `p` from the actor's set, and the actor itself when its set is
      then empty; an absent actor is left alone. */
  function WithoutGrant(m: Grants, id: string, p: string): (r: Grants)
    ensures GrantsOf(r, id) == GrantsOf(m, id) - {p}
    ensures forall other :: other != id ==> GrantsOf(r, other) == GrantsOf(m, other)
    ensures r.Keys == if id in m && m[id] <= {p} then m.Keys - {id} else m.Keys
  {
    if id !in m then m
    else
      var left := m[id] - {p};
      if left == {} then m - {id} else m[id := left]
  }

  /** Removing the actor's entry wholesale. */
  function WithoutActor(m: Grants, id: string): (r: Grants)
    ensures id !in r && GrantsOf(r, id) == {}
    ensures r.Keys == m.Keys - {id}
    ensures forall other :: other != id ==> GrantsOf(r, other) == GrantsOf(m, other)
  {
    m - {id}
  }

  /** Adding a permission a second time changes nothing. */
  lemma AddIdempotent(m: Grants, id: string, p: string)
    ensures WithGrant(WithGrant(m, id, p), id, p) == WithGrant(m, id, p)
  {
  }

  /** Removing a permission the actor does not hold changes nothing, as long
      as no actor maps to an empty set. */
  lemma RemoveAbsentUnchanged(m: Grants, id: string, p: string)
    requires NoEmptyEntries(m)
    requires p !in GrantsOf(m, id)
    ensures WithoutGrant(m, id, p) == m
  {
    if id in m {
      assert m[id] - {p} == m[id];
    }
  }

  /** An actor left with an empty set (which only `load` produces) is dropped
      by any removal, even of a permission it does not hold. */
  lemma RemoveDropsEmptyEntry(m: Grants, id: string, p: string)
    requires id in m && m[id] == {}
    ensures WithoutGrant(m, id, p) == m - {id}
  {
  }

  /** Adding a permission the actor did not hold and then removing it
      restores the namespace. */
  lemma AddThenRemove(m: Grants, id: string, p: string)
    requires NoEmptyEntries(m)
    requires p !in GrantsOf(m, id)
    ensures WithoutGrant(WithGrant(m, id, p), id, p) == m
  {
    if id in m {
      assert (m[id] + {p}) - {p} == m[id];
    } else {
      assert ({} + {p}) - {p} == {};
      assert m[id := {p}] - {id} == m;
    }
  }

  /** A grant holding a capital letter, which only `load` can store, is
      never removed by a removal: the store looks up the lower-cased
      permission, which differs from it. Only clearing the actor drops it. */
  lemma CapitalGrantSurvivesRemoval(m: Grants, id: string, p: string, q: string)
    requires p in GrantsOf(m, id)
    requires exists i :: 0 <= i < |p| && 'A' <= p[i] <= 'Z'
    ensures p in GrantsOf(WithoutGrant(m, id, Lower(q)), id)
  {
    var i :| 0 <= i < |p| && 'A' <= p[i] <= 'Z';
    if |Lower(q)| == |p| {
      assert Lower(q)[i] != p[i];
    }
    assert Lower(q) != p;
  }

  /** Add, remove and clear never leave an actor mapped to an empty set. */
  lemma UpdatesKeepNoEmptyEntries(m: Grants, id: string, p: string)
    requires NoEmptyEntries(m)
    ensures NoEmptyEntries(WithGrant(m, id, p))
    ensures NoEmptyEntries(WithoutGrant(m, id, p))
    ensures NoEmptyEntries(WithoutActor(m, id))
  {
  }

  // ---------------------------------------------------------------------
  // Resolving a member's authorization
  // ---------------------------------------------------------------------

  /** Some granted string in `grants` matches `required`. */
  predicate AnyMatch(grants: set<string>, required: string, matches: Matcher)
  {
    exists g :: g in grants && matches(g, required)
  }

  /** `hasPermission(member, permission)`: a non-null member, a non-null
      permission, and a matching grant held by the member's user or by one
      of its roles. */
  predicate Authorized(users: Grants, roles: Grants, member: Option<Member>, permission: Option<string>,
                       matches: Matcher)
  {
    && member.Some?
    && permission.Some?
    && (|| AnyMatch(GrantsOf(users, member.value.userId), permission.value, matches)
        || exists i :: 0 <= i < |member.value.roleIds|
             && AnyMatch(GrantsOf(roles, member.value.roleIds[i]), permission.value, matches))
  }

  /** The grants of the roles `ids`, taken together. */
  function RoleUnion(roles: Grants, ids: seq<string>): set<string>
  {
    if ids == [] then {} else RoleUnion(roles, ids[..|ids| - 1]) + GrantsOf(roles, ids[|ids| - 1])
  }

  /** `getEffectivePermissions(member)`: the user's grants and those of all
      its roles; nothing for a null member. */
  function Effective(users: Grants, roles: Grants, member: Option<Member>): set<string>
  {
    if member.None? then {} else GrantsOf(users, member.value.userId) + RoleUnion(roles, member.value.roleIds)
  }

  /** A string is in the roles' union exactly when one of the roles holds it. */
  lemma {:induction false} RoleUnionMembers(roles: Grants, ids: seq<string>, p: string)
    ensures p in RoleUnion(roles, ids) <==> exists i :: 0 <= i < |ids| && p in GrantsOf(roles, ids[i])
  {
    if ids != [] {
      var init := ids[..|ids| - 1];
      RoleUnionMembers(roles, init, p);
      assert forall i :: 0 <= i < |init| ==> init[i] == ids[i];
      if p in RoleUnion(roles, ids) && p !in RoleUnion(roles, init) {
        assert p in GrantsOf(roles, ids[|ids| - 1]);
      }
    }
  }

  /** A member is authorized exactly when some string of its effective
      permissions matches: the fast path and the report agree. */
  lemma AuthorizedViaEffective(users: Grants, roles: Grants, member: Option<Member>, permission: Option<string>,
                               matches: Matcher)
    ensures Authorized(users, roles, member, permission, matches) <==>
      member.Some? && permission.Some? && AnyMatch(Effective(users, roles, member), permission.value, matches)
  {
    if member.Some? && permission.Some? {
      var m, p := member.value, permission.value;
      if Authorized(users, roles, member, permission, matches) && !AnyMatch(GrantsOf(users, m.userId), p, matches) {
        var i :| 0 <= i < |m.roleIds| && AnyMatch(GrantsOf(roles, m.roleIds[i]), p, matches);
        var g :| g in GrantsOf(roles, m.roleIds[i]) && matches(g, p);
        RoleUnionMembers(roles, m.roleIds, g);
        assert g in Effective(users, roles, member);
      }
      if AnyMatch(Effective(users, roles, member), p, matches) {
        var g :| g in Effective(users, roles, member) && matches(g, p);
        if g !in GrantsOf(users, m.userId) {
          RoleUnionMembers(roles, m.roleIds, g);
          var i :| 0 <= i < |m.roleIds| && g in GrantsOf(roles, m.roleIds[i]);
          assert AnyMatch(GrantsOf(roles, m.roleIds[i]), p, matches);
        }
      }
    }
  }

  /** Granting a permission never takes an authorization away. */
  lemma GrantKeepsAuthorization(users: Grants, roles: Grants, member: Option<Member>, permission: Option<string>,
                                matches: Matcher, id: string, p: string)
    requires Authorized(users, roles, member, permission, matches)
    ensures Authorized(WithGrant(users, id, p), roles, member, permission, matches)
    ensures Authorized(users, WithGrant(roles, id, p), member, permission, matches)
  {
    var m, q := member.value, permission.value;
    if AnyMatch(GrantsOf(users, m.userId), q, matches) {
      var g :| g in GrantsOf(users, m.userId) && matches(g, q);
      assert g in GrantsOf(WithGrant(users, id, p), m.userId);
    } else {
      var i :| 0 <= i < |m.roleIds| && AnyMatch(GrantsOf(roles, m.roleIds[i]), q, matches);
      var g :| g in GrantsOf(roles, m.roleIds[i]) && matches(g, q);
      assert g in GrantsOf(WithGrant(roles, id, p), m.roleIds[i]);
    }
  }

  /** A role grant that matches authorizes every member holding the role,
      with no grant of the member's own. */
  lemma RoleGrantAuthorizes(users: Grants, roles: Grants, member: Member, roleIndex: nat, g: string,
                            required: string, matches: Matcher)
    requires roleIndex < |member.roleIds|
    requires matches(Lower(g), required)
    ensures Authorized(users, WithGrant(roles, member.roleIds[roleIndex], Lower(g)), Some(member), Some(required), matches)
  {
    var after := WithGrant(roles, member.roleIds[roleIndex], Lower(g));
    assert Lower(g) in GrantsOf(after, member.roleIds[roleIndex]);
    assert AnyMatch(GrantsOf(after, member.roleIds[roleIndex]), required, matches);
  }

  /** Removing the only grant that matched revokes the authorization at the
      next check. */
  lemma RevokeOnlyMatchingGrant(users: Grants, roles: Grants, member: Member, role: string, g: string,
                                required: string, matches: Matcher)
    requires forall u :: u in GrantsOf(users, member.userId) ==> !matches(u, required)
    requires forall i, h :: 0 <= i < |member.roleIds| && h in GrantsOf(roles, member.roleIds[i]) && matches(h, required)
               ==> member.roleIds[i] == role && h == g
    ensures !Authorized(users, WithoutGrant(roles, role, g), Some(member), Some(required), matches)
  {
    var after := WithoutGrant(roles, role, g);
    forall i | 0 <= i < |member.roleIds|
      ensures !AnyMatch(GrantsOf(after, member.roleIds[i]), required, matches)
    {
      forall h | h in GrantsOf(after, member.roleIds[i]) ensures !matches(h, required) {
        assert h in GrantsOf(roles, member.roleIds[i]);
      }
    }
  }

  /** `checkPermissionMatch`: scans the granted strings and stops at the
      first that matches. */
  method CheckPermissionMatch(permissions: set<string>, required: string, matches: Matcher) returns (found: bool)
    ensures found <==> AnyMatch(permissions, required, matches)
  {
    var rest := permissions;
    while rest != {}
      invariant rest <= permissions
      invariant forall g :: g in permissions && g !in rest ==> !matches(g, required)
      decreases rest
    {
      var perm :| perm in rest;
      if matches(perm, required) {
        return true;
      }
      rest := rest - {perm};
    }
    return false;
  }

  // ---------------------------------------------------------------------
  // Loading from a parsed permissions file
  // ---------------------------------------------------------------------

  /** `new HashSet<>(list)`: the strings of a YAML list, duplicates merged. */
  function StrItems(items: seq<Value>): set<string>
  {
    set i | 0 <= i < |items| && items[i].Str? :: items[i].s
  }

  /** The namespace `load` builds from a mapping, entry by entry: every key
      bound to a list gets the list's strings; other entries are skipped. */
  function ListEntries(entries: seq<Entry>): Grants
  {
    if entries == [] then map[]
    else
      var last := entries[|entries| - 1];
      var m := ListEntries(entries[..|entries| - 1]);
      if last.value.List? then m[last.key := StrItems(last.value.items)] else m
  }

  /** The namespace holds exactly the keys bound to lists, each with its
      list's strings (neither lower-cased nor checked for emptiness). */
  lemma {:induction false} ListEntriesMeaning(entries: seq<Entry>)
    requires DistinctKeys(entries)
    ensures forall k :: k in ListEntries(entries) <==> k in KeysOf(entries) && Get(entries, k).List?
    ensures forall k :: k in ListEntries(entries) ==> ListEntries(entries)[k] == StrItems(Get(entries, k).items)
  {
    if entries != [] {
      var init := entries[..|entries| - 1];
      var last := entries[|entries| - 1];
      ListEntriesMeaning(init);
      assert KeysOf(entries) == KeysOf(init) + {last.key} by {
        forall k | k in KeysOf(entries) ensures k in KeysOf(init) + {last.key} {
          var i :| 0 <= i < |entries| && entries[i].key == k;
          if i < |init| { assert init[i] == entries[i]; }
        }
        forall k | k in KeysOf(init) ensures k in KeysOf(entries) {
          var i :| 0 <= i < |init| && init[i].key == k;
          assert entries[i] == init[i];
        }
      }
      forall k | k in KeysOf(init)
        ensures k != last.key && Get(entries, k) == Get(init, k)
      {
        var i :| 0 <= i < |init| && init[i].key == k;
        assert entries[i] == init[i];
      }
      assert Get(entries, last.key) == last.value;
    }
  }

  /** `load` on the parsed file (`None` when there is no file): both maps
      are cleared first; a missing or empty file, or one whose top level,
      `users` or `roles` is not a mapping, ends in `createDefaultConfig`,
      a `save` of whatever was read before the failure. */
  function LoadDocument(document: Option<Value>): Loaded
  {
    if document.None? || !document.value.Map? then Loaded(map[], map[], true)
    else
      var data := document.value.entries;
      var users := Get(data, "users");
      var roles := Get(data, "roles");
      if !(users.Null? || users.Map?) then Loaded(map[], map[], true)
      else
        var u := if users.Map? then ListEntries(users.entries) else map[];
        if !(roles.Null? || roles.Map?) then Loaded(u, map[], true)
        else Loaded(u, if roles.Map? then ListEntries(roles.entries) else map[], false)
  }

  /** `entries` is how `save` writes the namespace `m`: each actor once, its
      permissions as a list of strings. */
  ghost predicate WritesGrants(entries: seq<Entry>, m: Grants)
  {
    && DistinctKeys(entries)
    && KeysOf(entries) == m.Keys
    && forall i :: 0 <= i < |entries| ==>
         entries[i].value.List? && entries[i].key in m && StrItems(entries[i].value.items) == m[entries[i].key]
  }

  lemma ListEntriesOfWritten(entries: seq<Entry>, m: Grants)
    requires WritesGrants(entries, m)
    ensures ListEntries(entries) == m
  {
    ListEntriesMeaning(entries);
    forall k | k in m ensures k in ListEntries(entries) && ListEntries(entries)[k] == m[k] {
      var i :| 0 <= i < |entries| && entries[i].key == k;
      assert Get(entries, k) == entries[i].value;
    }
  }

  /** A file written the way `save` writes the two maps loads back as the
      same two maps, without falling back to the default file. `save` puts
      the two sections in a `HashMap`, so either may come first in the file;
      both orders load the same. */
  lemma SaveLoadRoundTrip(userEntries: seq<Entry>, roleEntries: seq<Entry>, users: Grants, roles: Grants)
    requires WritesGrants(userEntries, users) && WritesGrants(roleEntries, roles)
    ensures LoadDocument(Some(Map([Entry("users", Map(userEntries)), Entry("roles", Map(roleEntries))])))
         == Loaded(users, roles, false)
    ensures LoadDocument(Some(Map([Entry("roles", Map(roleEntries)), Entry("users", Map(userEntries))])))
         == Loaded(users, roles, false)
  {
    ListEntriesOfWritten(userEntries, users);
    ListEntriesOfWritten(roleEntries, roles);
    var data := [Entry("users", Map(userEntries)), Entry("roles", Map(roleEntries))];
    assert Get(data, "users") == Map(userEntries);
    assert Get(data, "roles") == Map(roleEntries);
    var swapped := [Entry("roles", Map(roleEntries)), Entry("users", Map(userEntries))];
    assert Get(swapped, "users") == Map(userEntries);
    assert Get(swapped, "roles") == Map(roleEntries);
  }

  /** `load` stores an empty list as an empty set, so after a load an actor
      may map to an empty set. */
  lemma LoadMayStoreEmptySet()
    ensures !NoEmptyEntries(LoadDocument(Some(Map([Entry("users", Map([Entry("42", List([]))]))]))).users)
  {
    var users := [Entry("42", List([]))];
    var data := [Entry("users", Map(users))];
    assert Get(data, "users") == Map(users);
    assert Get(data, "roles") == Null by {
      assert "roles" != "users";
      assert "roles" !in KeysOf(data);
    }
    assert ListEntries(users) == map["42" := {}] by {
      assert users[..0] == [];
      assert StrItems([]) == {};
    }
    var loaded := LoadDocument(Some(Map(data)));
    assert loaded.users == map["42" := {}];
    assert "42" in loaded.users && loaded.users["42"] == {};
  }

  // ---------------------------------------------------------------------
  // The store
  // ---------------------------------------------------------------------

  class YamlPermissionManager {
    var userPermissions: Grants
    var rolePermissions: Grants
    /** How many times the maps have been written out to the file (`save`). */
    var saves: nat

    /** The constructor loads the file at once. */
    constructor (document: Option<Value>)
      ensures userPermissions == LoadDocument(document).users
      ensures rolePermissions == LoadDocument(document).roles
      ensures saves == if LoadDocument(document).wroteDefault then 1 else 0
    {
      userPermissions, rolePermissions, saves := map[], map[], 0;
      new;
      Load(document);
    }

    /** `save`: writes both maps out; the file itself is not modelled. */
    method Save()
      modifies this`saves
      ensures saves == old(saves) + 1
    {
      saves := saves + 1;
    }

    /** `load`: clears both maps, then fills them from the parsed file. */
    method Load(document: Option<Value>)
      modifies this
      ensures userPermissions == LoadDocument(document).users
      ensures rolePermissions == LoadDocument(document).roles
      ensures saves == old(saves) + if LoadDocument(document).wroteDefault then 1 else 0
    {
      userPermissions := map[];
      rolePermissions := map[];
      if document.None? || !document.value.Map? {
        Save();
        return;
      }
      var data := document.value.entries;
      var users := Get(data, "users");
      if users.Map? {
        var i := 0;
        while i < |users.entries|
          invariant 0 <= i <= |users.entries|
          invariant userPermissions == ListEntries(users.entries[..i])
          invariant rolePermissions == map[] && saves == old(saves)
        {
          var entry := users.entries[i];
          if entry.value.List? {
            userPermissions := userPermissions[entry.key := StrItems(entry.value.items)];
          }
          assert users.entries[..i + 1][..i] == users.entries[..i];
          i := i + 1;
        }
        assert users.entries[..i] == users.entries;
      } else if !users.Null? {
        Save();
        return;
      }
      var roles := Get(data, "roles");
      if roles.Map? {
        var i := 0;
        while i < |roles.entries|
          invariant 0 <= i <= |roles.entries|
          invariant rolePermissions == ListEntries(roles.entries[..i])
          invariant userPermissions == LoadDocument(document).users && saves == old(saves)
        {
          var entry := roles.entries[i];
          if entry.value.List? {
            rolePermissions := rolePermissions[entry.key := StrItems(entry.value.items)];
          }
          assert roles.entries[..i + 1][..i] == roles.entries[..i];
          i := i + 1;
        }
        assert roles.entries[..i] == roles.entries;
      } else if !roles.Null? {
        Save();
        return;
      }
    }

    /** `reload`: the same as `load`. */
    method Reload(document: Option<Value>)
      modifies this
      ensures userPermissions == LoadDocument(document).users
      ensures rolePermissions == LoadDocument(document).roles
      ensures saves == old(saves) + if LoadDocument(document).wroteDefault then 1 else 0
    {
      Load(document);
    }

    /** `hasPermission(User, permission)`. */
    method HasUserPermission(user: Option<string>, permission: Option<string>, matches: Matcher) returns (b: bool)
      ensures b <==> user.Some? && permission.Some? && AnyMatch(GrantsOf(userPermissions, user.value), permission.value, matches)
    {
      if user.None? || permission.None? {
        return false;
      }
      if user.value !in userPermissions || userPermissions[user.value] == {} {
        return false;
      }
      b := CheckPermissionMatch(userPermissions[user.value], permission.value, matches);
    }

    /** `hasPermission(Role, permission)`. */
    method HasRolePermission(role: Option<string>, permission: Option<string>, matches: Matcher) returns (b: bool)
      ensures b <==> role.Some? && permission.Some? && AnyMatch(GrantsOf(rolePermissions, role.value), permission.value, matches)
    {
      if role.None? || permission.None? {
        return false;
      }
      if role.value !in rolePermissions || rolePermissions[role.value] == {} {
        return false;
      }
      b := CheckPermissionMatch(rolePermissions[role.value], permission.value, matches);
    }

    /** `hasPermission(Member, permission)`: the user's own grants first,
        then each role in turn. */
    method HasPermission(member: Option<Member>, permission: Option<string>, matches: Matcher) returns (b: bool)
      ensures b == Authorized(userPermissions, rolePermissions, member, permission, matches)
    {
      if member.None? || permission.None? {
        return false;
      }
      b := HasUserPermission(Some(member.value.userId), permission, matches);
      if b {
        return;
      }
      var roleIds := member.value.roleIds;
      for i := 0 to |roleIds|
        invariant forall j :: 0 <= j < i ==> !AnyMatch(GrantsOf(rolePermissions, roleIds[j]), permission.value, matches)
      {
        var r := HasRolePermission(Some(roleIds[i]), permission, matches);
        if r {
          return true;
        }
      }
      return false;
    }

    /** `addUserPermission`: a null id or permission changes nothing;
        otherwise the lower-cased permission joins the user's set. */
    method AddUserPermission(userId: Option<string>, permission: Option<string>)
      modifies this
      ensures rolePermissions == old(rolePermissions)
      ensures if userId.Some? && permission.Some?
        then userPermissions == WithGrant(old(userPermissions), userId.value, Lower(permission.value))
             && saves == old(saves) + 1
        else userPermissions == old(userPermissions) && saves == old(saves)
    {
      if userId.None? || permission.None? {
        return;
      }
      userPermissions := WithGrant(userPermissions, userId.value, Lower(permission.value));
      Save();
    }

    /** `removeUserPermission`: a null id or permission, or a user with no
        entry, changes nothing and writes nothing; otherwise the lower-cased
        permission leaves the user's set, and the user goes when the set is
        then empty. */
    method RemoveUserPermission(userId: Option<string>, permission: Option<string>)
      modifies this
      ensures rolePermissions == old(rolePermissions)
      ensures if userId.Some? && permission.Some? && userId.value in old(userPermissions)
        then userPermissions == WithoutGrant(old(userPermissions), userId.value, Lower(permission.value))
             && saves == old(saves) + 1
        else userPermissions == old(userPermissions) && saves == old(saves)
    {
      if userId.None? || permission.None? {
        return;
      }
      if userId.value in userPermissions {
        userPermissions := WithoutGrant(userPermissions, userId.value, Lower(permission.value));
        Save();
      }
    }

    /** `addRolePermission`: the role twin of `addUserPermission`. */
    method AddRolePermission(roleId: Option<string>, permission: Option<string>)
      modifies this
      ensures userPermissions == old(userPermissions)
      ensures if roleId.Some? && permission.Some?
        then rolePermissions == WithGrant(old(rolePermissions), roleId.value, Lower(permission.value))
             && saves == old(saves) + 1
        else rolePermissions == old(rolePermissions) && saves == old(saves)
    {
      if roleId.None? || permission.None? {
        return;
      }
      rolePermissions := WithGrant(rolePermissions, roleId.value, Lower(permission.value));
      Save();
    }

    /** `removeRolePermission`: the role twin of `removeUserPermission`. */
    method RemoveRolePermission(roleId: Option<string>, permission: Option<string>)
      modifies this
      ensures userPermissions == old(userPermissions)
      ensures if roleId.Some? && permission.Some? && roleId.value in old(rolePermissions)
        then rolePermissions == WithoutGrant(old(rolePermissions), roleId.value, Lower(permission.value))
             && saves == old(saves) + 1
        else rolePermissions == old(rolePermissions) && saves == old(saves)
    {
      if roleId.None? || permission.None? {
        return;
      }
      if roleId.value in rolePermissions {
        rolePermissions := WithoutGrant(rolePermissions, roleId.value, Lower(permission.value));
        Save();
      }
    }

    /** `clearUserPermissions`: drops the user's entry (a null id changes
        nothing). */
    method ClearUserPermissions(userId: Option<string>)
      modifies this
      ensures rolePermissions == old(rolePermissions)
      ensures if userId.Some?
        then userPermissions == WithoutActor(old(userPermissions), userId.value) && saves == old(saves) + 1
        else userPermissions == old(userPermissions) && saves == old(saves)
    {
      if userId.Some? {
        userPermissions := WithoutActor(userPermissions, userId.value);
        Save();
      }
    }

    /** `clearRolePermissions`: drops the role's entry (a null id changes
        nothing). */
    method ClearRolePermissions(roleId: Option<string>)
      modifies this
      ensures userPermissions == old(userPermissions)
      ensures if roleId.Some?
        then rolePermissions == WithoutActor(old(rolePermissions), roleId.value) && saves == old(saves) + 1
        else rolePermissions == old(rolePermissions) && saves == old(saves)
    {
      if roleId.Some? {
        rolePermissions := WithoutActor(rolePermissions, roleId.value);
        Save();
      }
    }

    /** `getUserPermissions`: a copy of the user's set; empty, never null,
        for a user with no entry. */
    method GetUserPermissions(userId: string) returns (s: set<string>)
      ensures s == GrantsOf(userPermissions, userId)
    {
      s := if userId in userPermissions then userPermissions[userId] else {};
    }

    /** `getRolePermissions`: a copy of the role's set; empty, never null,
        for a role with no entry. */
    method GetRolePermissions(roleId: string) returns (s: set<string>)
      ensures s == GrantsOf(rolePermissions, roleId)
    {
      s := if roleId in rolePermissions then rolePermissions[roleId] else {};
    }

    /** `getEffectivePermissions`: the union of the user's set and every
        role's set, accumulated role by role. */
    method GetEffectivePermissions(member: Option<Member>) returns (effective: set<string>)
      ensures effective == Effective(userPermissions, rolePermissions, member)
    {
      if member.None? {
        return {};
      }
      effective := {};
      var own := GetUserPermissions(member.value.userId);
      effective := effective + own;
      var roleIds := member.value.roleIds;
      for i := 0 to |roleIds|
        invariant effective == GrantsOf(userPermissions, member.value.userId) + RoleUnion(rolePermissions, roleIds[..i])
      {
        var granted := GetRolePermissions(roleIds[i]);
        effective := effective + granted;
        assert roleIds[..i + 1][..i] == roleIds[..i];
      }
      assert roleIds[..|roleIds|] == roleIds;
    }

    /** `getAllUsersWithPermissions`: the ids of the users with an entry. */
    method GetAllUsersWithPermissions() returns (ids: set<string>)
      ensures forall id :: id in ids <==> id in userPermissions
    {
      ids := userPermissions.Keys;
    }

    /** `getAllRolesWithPermissions`: the ids of the roles with an entry. */
    method GetAllRolesWithPermissions() returns (ids: set<string>)
      ensures forall id :: id in ids <==> id in rolePermissions
    {
      ids := rolePermissions.Keys;
    }
  }
}
