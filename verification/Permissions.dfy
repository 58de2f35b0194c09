/**
 What a member of a guild may do in a channel: the permissions of the guild's roles, and the
 channel's overwrites laid over them for everyone, for roles and for the member.
 */
module Permissions {
  import opened Wrappers

  type Bit = x: nat | x < 64

  /** A 64-bit mask, as the set of its one bits: `|` is union, and `& ~` is difference. */
  type Permission = set<Bit>

  const ALL: Permission := set b: Bit | 0 <= b < 64
  const ADMINISTRATOR: Bit := 3

  datatype OverwriteType = RoleType | MemberType

  datatype Overwrite = Overwrite(id: nat, kind: OverwriteType, allow: Permission, deny: Permission)

  datatype Member = Member(userId: nat, roles: seq<nat>)

  /** A guild's id is also the id of its role for everyone. Members are kept by their user's id. */
  datatype Guild = Guild(id: nat, ownerId: nat, members: map<nat, Member>)

  /** The permissions of the roles in the cache. */
  type Roles = map<nat, Permission>

  // ---------- What the calculation comes to ----------

  /** The permissions of those of a member's roles that are cached. */
  function RolePermissions(cache: Roles, roles: seq<nat>): Permission {
    if roles == [] then {}
    else
      var last := roles[|roles| - 1];
      RolePermissions(cache, roles[..|roles| - 1]) + if last in cache then cache[last] else {}
  }

  function BasePermissions(g: Guild, cache: Roles, m: Member): Permission {
    if g.ownerId == m.userId then ALL
    else if g.id !in cache then {}
    else
      var permissions := cache[g.id] + RolePermissions(cache, m.roles);
      if ADMINISTRATOR in permissions then ALL else permissions
  }

  /** The first overwrite for an id; one that changes nothing if there is none. */
  function Find(overwrites: seq<Overwrite>, id: nat, kind: OverwriteType): Overwrite {
    if overwrites == [] then Overwrite(id, kind, {}, {})
    else if overwrites[0].id == id && overwrites[0].kind == kind then overwrites[0]
    else Find(overwrites[1..], id, kind)
  }

  function Apply(permissions: Permission, o: Overwrite): Permission {
    (permissions - o.deny) + o.allow
  }

  /** The overwrites for a member's roles taken together; the one for everyone is not among them. */
  function RoleOverwrite(guildId: nat, roles: seq<nat>, overwrites: seq<Overwrite>): Overwrite {
    if roles == [] then Overwrite(0, RoleType, {}, {})
    else
      var rest := RoleOverwrite(guildId, roles[..|roles| - 1], overwrites);
      var last := roles[|roles| - 1];
      if last == guildId then rest
      else
        var o := Find(overwrites, last, RoleType);
        Overwrite(0, RoleType, rest.allow + o.allow, rest.deny + o.deny)
  }

  function Overwrites(g: Guild, base: Permission, m: Member, overwrites: seq<Overwrite>): Permission {
    if ADMINISTRATOR in base then ALL
    else
      Apply(Apply(Apply(base, Find(overwrites, g.id, RoleType)), RoleOverwrite(g.id, m.roles, overwrites)),
            Find(overwrites, m.userId, MemberType))
  }

  // ---------- The methods ----------

  method FindOverwrite(overwrites: seq<Overwrite>, id: nat, kind: OverwriteType) returns (o: Overwrite)
    ensures o == Find(overwrites, id, kind)
  {
    for i := 0 to |overwrites|
      invariant Find(overwrites[i..], id, kind) == Find(overwrites, id, kind)
    {
      assert overwrites[i..][1..] == overwrites[i + 1..];
      if overwrites[i].id == id && overwrites[i].kind == kind {
        return overwrites[i];
      }
    }
    return Overwrite(id, kind, {}, {});
  }

  method MemberBasePermissions(g: Guild, cache: Roles, member: Member) returns (r: Permission)
    ensures r == BasePermissions(g, cache, member)
  {
    if g.ownerId == member.userId {
      return ALL;
    }
    if g.id !in cache {
      return {};
    }
    var permissions := cache[g.id];
    for i := 0 to |member.roles|
      invariant permissions == cache[g.id] + RolePermissions(cache, member.roles[..i])
    {
      assert member.roles[..i + 1][..i] == member.roles[..i];
      if member.roles[i] in cache {
        permissions := permissions + cache[member.roles[i]];
      }
    }
    assert member.roles[..|member.roles|] == member.roles;
    if ADMINISTRATOR in permissions {
      return ALL;
    }
    return permissions;
  }

  method UserBasePermissions(g: Guild, cache: Roles, user: Option<nat>) returns (r: Permission)
    ensures r == if user.Some? && user.value in g.members then BasePermissions(g, cache, g.members[user.value]) else {}
  {
    if user.None? {
      return {};
    }
    if user.value !in g.members {
      return {};
    }
    r := MemberBasePermissions(g, cache, g.members[user.value]);
  }

  /** The allowed and denied permissions of the overwrites for a member's roles. */
  method CollectRoles(guildId: nat, roles: seq<nat>, overwrites: seq<Overwrite>) returns (allow: Permission, deny: Permission)
    ensures allow == RoleOverwrite(guildId, roles, overwrites).allow
    ensures deny == RoleOverwrite(guildId, roles, overwrites).deny
  {
    allow, deny := {}, {};
    for i := 0 to |roles|
      invariant allow == RoleOverwrite(guildId, roles[..i], overwrites).allow
      invariant deny == RoleOverwrite(guildId, roles[..i], overwrites).deny
    {
      assert roles[..i + 1][..i] == roles[..i];
      if roles[i] != guildId {
        var o := FindOverwrite(overwrites, roles[i], RoleType);
        deny := deny + o.deny;
        allow := allow + o.allow;
      }
    }
    assert roles[..|roles|] == roles;
  }

  /** For a user and permissions worked out before. */
  method UserOverwrites(g: Guild, base: Permission, user: Option<nat>, channel: Option<seq<Overwrite>>) returns (r: Permission)
    ensures user.None? || channel.None? ==> r == {}
    ensures user.Some? && channel.Some? ==>
      r == if ADMINISTRATOR !in base && user.value !in g.members then {}
           else if user.value in g.members then Overwrites(g, base, g.members[user.value], channel.value) else ALL
  {
    if user.None? || channel.None? {
      return {};
    }
    if ADMINISTRATOR in base {
      return ALL;
    }
    var permissions := base;
    var everyone := FindOverwrite(channel.value, g.id, RoleType);
    permissions := permissions - everyone.deny;
    permissions := permissions + everyone.allow;
    if user.value !in g.members {
      return {};
    }
    var gm := g.members[user.value];
    var allow, deny := CollectRoles(g.id, gm.roles, channel.value);
    permissions := permissions - deny;
    permissions := permissions + allow;
    var own := FindOverwrite(channel.value, gm.userId, MemberType);
    permissions := permissions - own.deny;
    permissions := permissions + own.allow;
    return permissions;
  }

  method MemberOverwrites(g: Guild, cache: Roles, member: Member, channel: seq<Overwrite>) returns (r: Permission)
    ensures r == Overwrites(g, BasePermissions(g, cache, member), member, channel)
  {
    var base := MemberBasePermissions(g, cache, member);
    if ADMINISTRATOR in base {
      return ALL;
    }
    var permissions := base;
    var everyone := FindOverwrite(channel, g.id, RoleType);
    permissions := permissions - everyone.deny;
    permissions := permissions + everyone.allow;
    var allow, deny := CollectRoles(g.id, member.roles, channel);
    permissions := permissions - deny;
    permissions := permissions + allow;
    var own := FindOverwrite(channel, member.userId, MemberType);
    permissions := permissions - own.deny;
    permissions := permissions + own.allow;
    return permissions;
  }

  /** For a cached member both ways of asking agree, on every bit. */
  method BothAgree(g: Guild, cache: Roles, user: nat, channel: seq<Overwrite>) returns (first: Permission, second: Permission)
    requires user in g.members
    ensures first == second
  {
    var base := UserBasePermissions(g, cache, Some(user));
    first := UserOverwrites(g, base, Some(user), Some(channel));
    second := MemberOverwrites(g, cache, g.members[user], channel);
  }

  // ---------- Bit by bit ----------

  /** The overwrite for an id is the first of its kind in the channel's list. */
  predicate Decides(overwrites: seq<Overwrite>, i: nat, id: nat, kind: OverwriteType) {
    && i < |overwrites| && overwrites[i].id == id && overwrites[i].kind == kind
    && forall k :: 0 <= k < i ==> !(overwrites[k].id == id && overwrites[k].kind == kind)
  }

  predicate Allows(overwrites: seq<Overwrite>, id: nat, kind: OverwriteType, b: Bit) {
    exists i :: 0 <= i < |overwrites| && Decides(overwrites, i, id, kind) && b in overwrites[i].allow
  }

  predicate Denies(overwrites: seq<Overwrite>, id: nat, kind: OverwriteType, b: Bit) {
    exists i :: 0 <= i < |overwrites| && Decides(overwrites, i, id, kind) && b in overwrites[i].deny
  }

  lemma {:induction false} FindIs(overwrites: seq<Overwrite>, id: nat, kind: OverwriteType) returns (i: nat)
    ensures i < |overwrites| ==> Decides(overwrites, i, id, kind) && Find(overwrites, id, kind) == overwrites[i]
    ensures i >= |overwrites| ==> Find(overwrites, id, kind) == Overwrite(id, kind, {}, {})
    ensures i >= |overwrites| ==> forall k :: 0 <= k < |overwrites| ==> !(overwrites[k].id == id && overwrites[k].kind == kind)
  {
    i := 0;
    if overwrites != [] && !(overwrites[0].id == id && overwrites[0].kind == kind) {
      var j := FindIs(overwrites[1..], id, kind);
      i := j + 1;
      assert forall k :: 0 < k < |overwrites| ==> overwrites[k] == overwrites[1..][k - 1];
    }
  }

  lemma FindHas(overwrites: seq<Overwrite>, id: nat, kind: OverwriteType, b: Bit)
    ensures b in Find(overwrites, id, kind).allow <==> Allows(overwrites, id, kind, b)
    ensures b in Find(overwrites, id, kind).deny <==> Denies(overwrites, id, kind, b)
  {
    hide Find;
    var i := FindIs(overwrites, id, kind);
    assert forall k :: 0 <= k < |overwrites| && Decides(overwrites, k, id, kind) ==> k == i;
  }

  /** Some role's overwrite allows the bit; that for everyone is not among them. */
  predicate SomeRoleAllows(guildId: nat, roles: seq<nat>, overwrites: seq<Overwrite>, b: Bit) {
    exists r :: r in roles && r != guildId && Allows(overwrites, r, RoleType, b)
  }

  predicate SomeRoleDenies(guildId: nat, roles: seq<nat>, overwrites: seq<Overwrite>, b: Bit) {
    exists r :: r in roles && r != guildId && Denies(overwrites, r, RoleType, b)
  }

  lemma {:induction false} RoleOverwriteHas(guildId: nat, roles: seq<nat>, overwrites: seq<Overwrite>, b: Bit)
    ensures b in RoleOverwrite(guildId, roles, overwrites).allow <==> SomeRoleAllows(guildId, roles, overwrites, b)
    ensures b in RoleOverwrite(guildId, roles, overwrites).deny <==> SomeRoleDenies(guildId, roles, overwrites, b)
  {
    hide Find, Allows, Denies;
    if roles != [] {
      var rest, last := roles[..|roles| - 1], roles[|roles| - 1];
      RoleOverwriteHas(guildId, rest, overwrites, b);
      FindHas(overwrites, last, RoleType, b);
      assert forall r :: r in roles <==> r in rest || r == last;
    }
  }

  /**
   Each bit is decided by the member's own overwrite, or else by those of the member's roles,
   or else by that for everyone, or else by the base; in each layer allowing goes before denying,
   and a layer for which the channel lists nothing changes nothing.
   */
  lemma Layers(g: Guild, base: Permission, member: Member, overwrites: seq<Overwrite>, b: Bit)
    requires ADMINISTRATOR !in base
    ensures b in Overwrites(g, base, member, overwrites) <==>
      if Allows(overwrites, member.userId, MemberType, b) then true
      else if Denies(overwrites, member.userId, MemberType, b) then false
      else if SomeRoleAllows(g.id, member.roles, overwrites, b) then true
      else if SomeRoleDenies(g.id, member.roles, overwrites, b) then false
      else if Allows(overwrites, g.id, RoleType, b) then true
      else if Denies(overwrites, g.id, RoleType, b) then false
      else b in base
  {
    hide SomeRoleAllows, SomeRoleDenies, Find, Allows, Denies, RoleOverwrite;
    RoleOverwriteHas(g.id, member.roles, overwrites, b);
    FindHas(overwrites, member.userId, MemberType, b);
    FindHas(overwrites, g.id, RoleType, b);
  }

  lemma {:induction false} RolePermissionsHas(cache: Roles, roles: seq<nat>, b: Bit)
    ensures b in RolePermissions(cache, roles) <==> exists r :: r in roles && r in cache && b in cache[r]
  {
    if roles != [] {
      var rest, last := roles[..|roles| - 1], roles[|roles| - 1];
      RolePermissionsHas(cache, rest, b);
      assert forall r :: r in roles <==> r in rest || r == last;
    }
  }

  /** Some role of the member that is in the cache has the bit. */
  predicate SomeRoleHas(cache: Roles, roles: seq<nat>, b: Bit) {
    exists r :: r in roles && r in cache && b in cache[r]
  }

  /**
   The owner has every bit. Anyone else has none while the role for everyone is not in the cache,
   and else those of that role and of the member's cached roles, which are all if one of them is
   the administrator's, bit number 3.
   */
  lemma BaseBits(g: Guild, cache: Roles, m: Member, b: Bit)
    ensures b in BasePermissions(g, cache, m) <==>
      || g.ownerId == m.userId
      || (g.id in cache && (b in cache[g.id] || SomeRoleHas(cache, m.roles, b) || 3 in cache[g.id] || SomeRoleHas(cache, m.roles, 3)))
  {
    RolePermissionsHas(cache, m.roles, b);
    RolePermissionsHas(cache, m.roles, 3);
  }

  /** Neither the order nor the repetition of a member's roles matters. */
  lemma RolesAreASet(g: Guild, cache: Roles, a: Member, b: Member, overwrites: seq<Overwrite>)
    requires a.userId == b.userId && forall r :: r in a.roles <==> r in b.roles
    ensures BasePermissions(g, cache, a) == BasePermissions(g, cache, b)
    ensures Overwrites(g, BasePermissions(g, cache, a), a, overwrites) == Overwrites(g, BasePermissions(g, cache, b), b, overwrites)
  {
    hide Find, Allows, Denies, RolePermissions, RoleOverwrite;
    forall bit: Bit ensures bit in RolePermissions(cache, a.roles) <==> bit in RolePermissions(cache, b.roles) {
      RolePermissionsHas(cache, a.roles, bit);
      RolePermissionsHas(cache, b.roles, bit);
    }
    assert RolePermissions(cache, a.roles) == RolePermissions(cache, b.roles);
    var x, y := RoleOverwrite(g.id, a.roles, overwrites), RoleOverwrite(g.id, b.roles, overwrites);
    forall bit: Bit ensures (bit in x.allow <==> bit in y.allow) && (bit in x.deny <==> bit in y.deny) {
      RoleOverwriteHas(g.id, a.roles, overwrites, bit);
      RoleOverwriteHas(g.id, b.roles, overwrites, bit);
    }
    assert x.allow == y.allow && x.deny == y.deny;
  }

  /** The owner, and whoever has an administrator's role, may do everything everywhere. */
  lemma AllForAdministrators(g: Guild, cache: Roles, m: Member, overwrites: seq<Overwrite>)
    requires g.ownerId == m.userId
      || (g.id in cache && (ADMINISTRATOR in cache[g.id] || exists r :: r in m.roles && r in cache && ADMINISTRATOR in cache[r]))
    ensures BasePermissions(g, cache, m) == ALL
    ensures Overwrites(g, BasePermissions(g, cache, m), m, overwrites) == ALL
  {
    RolePermissionsHas(cache, m.roles, ADMINISTRATOR);
  }
}
