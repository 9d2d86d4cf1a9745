/**
 * Role-group synchronisation run after every save of a user
 * (accounts/signals.py).  Groups are identified by their (unique) names.
 */
module AccountsSignals {
  import opened Ordering

  /** The names `Group.objects.filter(name__in=[...])` looks for. */
  const RoleGroupNames: seq<string> := ["GESTOR", "PORTEIRO", "MORADOR"]

  /** The user's groups after the sync, given the names of the groups that exist. */
  function SyncedGroups(groups: set<string>, role: string, existing: set<string>): set<string> {
    if role == "" || role !in existing then groups
    else (groups - (set g | g in RoleGroupNames && g in existing)) + {role}
  }

  /** An empty role, or a role with no group of that name, leaves the membership alone. */
  lemma SyncNoOp(groups: set<string>, role: string, existing: set<string>)
    requires role == "" || role !in existing
    ensures SyncedGroups(groups, role, existing) == groups
  {
  }

  /**
   * After a sync for one of the three roles the user is in exactly one role
   * group, the one named by the role; groups outside the three are untouched.
   */
  lemma SyncLeavesOneRoleGroup(groups: set<string>, role: string, existing: set<string>)
    requires groups <= existing
    requires role in RoleGroupNames && role in existing
    ensures forall g :: g in RoleGroupNames ==> (g in SyncedGroups(groups, role, existing) <==> g == role)
    ensures forall g :: g !in RoleGroupNames ==> (g in SyncedGroups(groups, role, existing) <==> g in groups)
  {
  }

  /** Syncing a second time changes nothing. */
  lemma SyncIdempotent(groups: set<string>, role: string, existing: set<string>)
    ensures SyncedGroups(SyncedGroups(groups, role, existing), role, existing) == SyncedGroups(groups, role, existing)
  {
  }

  /** A group outside the role groups other than the role's own is never added or removed. */
  lemma SyncKeepsOtherGroups(groups: set<string>, role: string, existing: set<string>, g: string)
    requires g !in RoleGroupNames && g != role
    ensures g in SyncedGroups(groups, role, existing) <==> g in groups
  {
  }

  /** The names among the first `i + 1` entries are those among the first `i` and entry `i`. */
  lemma PrefixSetStep(s: seq<string>, i: nat)
    requires i < |s|
    ensures (set j | 0 <= j < i + 1 :: s[j]) == (set j | 0 <= j < i :: s[j]) + {s[i]}
  {
  }

  /** The many-to-many `user.groups` of one user. */
  class UserGroups {
    var groups: set<string>

    constructor (initial: set<string>)
      ensures groups == initial
    {
      groups := initial;
    }

    /** `sync_user_group`: drop every existing role group, then join the role's group. */
    method SyncUserGroup(role: string, existing: set<string>)
      modifies this
      ensures groups == SyncedGroups(old(groups), role, existing)
    {
      if role == "" {
        return;
      }
      if role !in existing {
        return;  // Group.DoesNotExist
      }
      var roleGroups := Filter(RoleGroupNames, (g: string) => g in existing);
      ghost var removed: set<string> := {};
      for i := 0 to |roleGroups|
        invariant removed == set j | 0 <= j < i :: roleGroups[j]
        invariant groups == old(groups) - removed
      {
        PrefixSetStep(roleGroups, i);
        groups := groups - {roleGroups[i]};
        removed := removed + {roleGroups[i]};
      }
      assert removed == set g | g in RoleGroupNames && g in existing by {
        forall g | g in roleGroups ensures g in removed {
          var j :| 0 <= j < |roleGroups| && roleGroups[j] == g;
        }
      }
      groups := groups + {role};
    }
  }
}
