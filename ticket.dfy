/**
 * The ticket command's two computations: the text-channel name derived from
 * the requesting user's name, and the permission overwrites the channel is
 * created with. Character classes are those of ASCII.
 */
module Ticket {
  import opened Wrappers
  import opened Seqs

  /** STAFF_ROLE_NAME. */
  const StaffRoleName: string := "Staff"
  /** The fixed start of every ticket channel name. */
  const Prefix: string := "ticket-"
  /** The slice bound applied to the whole channel name. */
  const MaxNameLength: nat := 90

  predicate IsUpper(c: char) { 'A' <= c <= 'Z' }

  /** `str.isalnum` on ASCII. */
  predicate IsAlnum(c: char) { 'a' <= c <= 'z' || 'A' <= c <= 'Z' || '0' <= c <= '9' }

  /** A character the filter keeps: alphanumeric, `-` or `_`. */
  predicate Allowed(c: char) { IsAlnum(c) || c == '-' || c == '_' }

  /** `str.lower` on one ASCII character. */
  function Lower(c: char): (r: char)
    ensures !IsUpper(r)
    ensures !IsUpper(c) ==> r == c
    ensures IsAlnum(r) <==> IsAlnum(c)
  {
    if IsUpper(c) then (c as int + 32) as char else c
  }

  /** `name.lower()`. */
  function LowerAll(s: string): (r: string)
    ensures |r| == |s| && forall i :: 0 <= i < |s| ==> r[i] == Lower(s[i])
  {
    if s == [] then [] else [Lower(s[0])] + LowerAll(s[1..])
  }

  /** `.replace(" ", "-")`. */
  function ReplaceSpaces(s: string): (r: string)
    ensures |r| == |s|
    ensures forall i :: 0 <= i < |s| ==> r[i] == (if s[i] == ' ' then '-' else s[i])
  {
    if s == [] then [] else [if s[0] == ' ' then '-' else s[0]] + ReplaceSpaces(s[1..])
  }

  /**
   * `"".join(ch for ch in s if ch.isalnum() or ch in "-_")`: every occurrence of
   * an allowed character is kept, every other one dropped, in their order.
   */
  function KeepAllowed(s: string): (r: string)
    ensures forall i :: 0 <= i < |r| ==> Allowed(r[i])
    ensures IsSubsequence(r, s)
    ensures forall c :: multiset(r)[c] == if Allowed(c) then multiset(s)[c] else 0
  {
    if s == [] then []
    else
      assert [s[0]] + s[1..] == s;
      var rest := KeepAllowed(s[1..]);
      if Allowed(s[0]) then
        SubsequenceCons(s[0], rest, s[1..]);
        [s[0]] + rest
      else
        SubsequenceSkip(s[0], rest, s[1..]);
        rest
  }

  /**
   * The sanitised user name, before the prefix and the length bound: only
   * lowercase alphanumerics, `-` and `_`, and never longer than the name.
   */
  function SafeName(name: string): (r: string)
    ensures forall i :: 0 <= i < |r| ==> Allowed(r[i]) && !IsUpper(r[i]) && r[i] != ' '
    ensures |r| <= |name|
  {
    var replaced := ReplaceSpaces(LowerAll(name));
    KeepAllowedNoUpper(replaced);
    SubsequenceLength(KeepAllowed(replaced), replaced);
    KeepAllowed(replaced)
  }

  /** Filtering a string without uppercase letters keeps it without them. */
  lemma KeepAllowedNoUpper(s: string)
    requires forall i :: 0 <= i < |s| ==> !IsUpper(s[i])
    ensures forall i :: 0 <= i < |KeepAllowed(s)| ==> !IsUpper(KeepAllowed(s)[i])
  {
    var r := KeepAllowed(s);
    SubsequenceMembers(r, s);
    forall i | 0 <= i < |r| ensures !IsUpper(r[i]) {
      var c := r[i];
      assert c in s;
      var j :| 0 <= j < |s| && s[j] == c;
    }
  }

  /**
   * `f"ticket-{safe_name}"[:90]`: the prefixed sanitised name, cut to its first
   * 90 characters when it is longer.
   */
  function ChannelName(name: string): (r: string)
    ensures |r| <= MaxNameLength
    ensures |r| >= |Prefix| && r[..|Prefix|] == Prefix
    ensures |r| <= |Prefix + SafeName(name)| && r == (Prefix + SafeName(name))[..|r|]
    ensures |Prefix + SafeName(name)| <= MaxNameLength ==> r == Prefix + SafeName(name)
    ensures |Prefix + SafeName(name)| > MaxNameLength ==> r == (Prefix + SafeName(name))[..MaxNameLength]
  {
    var full := Prefix + SafeName(name);
    assert full[..|Prefix|] == Prefix;
    if |full| <= MaxNameLength then
      assert full[..|full|] == full;
      full
    else
      full[..MaxNameLength]
  }

  /**
   * A ticket channel name starts with `ticket-`, is at most 90 characters,
   * and after the prefix holds only lowercase alphanumerics, `-` and `_`:
   * in particular no space survives.
   */
  lemma ChannelNameShape(name: string)
    ensures |ChannelName(name)| <= MaxNameLength
    ensures |ChannelName(name)| >= |Prefix| && ChannelName(name)[..|Prefix|] == Prefix
    ensures forall i :: |Prefix| <= i < |ChannelName(name)| ==>
              Allowed(ChannelName(name)[i]) && !IsUpper(ChannelName(name)[i]) && ChannelName(name)[i] != ' '
  {
    PrefixedSafeChars(SafeName(name), ChannelName(name));
  }

  /** A cut of `Prefix + safe` holds after the prefix only characters of `safe`. */
  lemma PrefixedSafeChars(safe: string, r: string)
    requires forall i :: 0 <= i < |safe| ==> Allowed(safe[i]) && !IsUpper(safe[i]) && safe[i] != ' '
    requires |r| <= |Prefix + safe| && r == (Prefix + safe)[..|r|]
    ensures forall i :: |Prefix| <= i < |r| ==> Allowed(r[i]) && !IsUpper(r[i]) && r[i] != ' '
  {
    forall i | |Prefix| <= i < |r|
      ensures Allowed(r[i]) && !IsUpper(r[i]) && r[i] != ' '
    {
      assert r[i] == (Prefix + safe)[i] == safe[i - |Prefix|];
    }
  }

  /**
   * The sanitised name keeps the characters of the lowercased, space-replaced
   * name in order, drops only disallowed ones, and keeps every allowed one.
   */
  lemma SafeNameIsFilteredSubsequence(name: string)
    ensures IsSubsequence(SafeName(name), ReplaceSpaces(LowerAll(name)))
    ensures |SafeName(name)| <= |name|
    ensures forall c :: multiset(SafeName(name))[c] ==
              if Allowed(c) then multiset(ReplaceSpaces(LowerAll(name)))[c] else 0
  {
    SubsequenceLength(SafeName(name), ReplaceSpaces(LowerAll(name)));
  }

  lemma {:induction false} SubsequenceLength(a: string, b: string)
    requires IsSubsequence(a, b)
    ensures |a| <= |b|
    decreases |b|
  {
    if a != [] {
      if a[0] == b[0] {
        SubsequenceLength(a[1..], b[1..]);
      } else {
        SubsequenceLength(a, b[1..]);
      }
    }
  }

  /** A name already made only of lowercase alphanumerics, `-` and `_`. */
  predicate IsSafe(s: string) {
    forall i :: 0 <= i < |s| ==> Allowed(s[i]) && !IsUpper(s[i])
  }

  /** A name that is already safe passes through unchanged; only the length bound can apply. */
  lemma {:induction false} SafeNamePassesThrough(name: string)
    requires IsSafe(name)
    ensures SafeName(name) == name
    ensures ChannelName(name) == if |Prefix + name| <= MaxNameLength then Prefix + name else (Prefix + name)[..MaxNameLength]
  {
    var lowered := LowerAll(name);
    assert lowered == name;
    var replaced := ReplaceSpaces(lowered);
    assert replaced == name;
    KeepAllowedKeepsSafe(name);
  }

  lemma {:induction false} KeepAllowedKeepsSafe(s: string)
    requires forall i :: 0 <= i < |s| ==> Allowed(s[i])
    ensures KeepAllowed(s) == s
  {
    if s != [] {
      KeepAllowedKeepsSafe(s[1..]);
      assert [s[0]] + s[1..] == s;
    }
  }

  /** Sanitising is idempotent. */
  lemma SafeNameIdempotent(name: string)
    ensures SafeName(SafeName(name)) == SafeName(name)
  {
    SafeNamePassesThrough(SafeName(name));
  }

  /** A target of a permission overwrite: a role or a member. */
  datatype Target = RoleTarget(roleId: int) | MemberTarget(userId: int)

  /** A permission overwrite; `None` leaves the permission as inherited. */
  datatype Overwrite = Overwrite(viewChannel: Option<bool>, sendMessages: Option<bool>, readMessageHistory: Option<bool>)

  /** `PermissionOverwrite(view_channel=False)`. */
  const Hidden := Overwrite(Some(false), None, None)

  /** `PermissionOverwrite(view_channel=True, send_messages=True, read_message_history=True)`. */
  const Participant := Overwrite(Some(true), Some(true), Some(true))

  /** A guild role as the lookup by name sees it. */
  datatype RoleInfo = RoleInfo(id: int, name: string)

  /** `discord.utils.get(guild.roles, name=name)`: the first role with that name, if any. */
  function FindRoleByName(roles: seq<RoleInfo>, name: string): (r: Option<int>)
    ensures r.None? <==> forall i :: 0 <= i < |roles| ==> roles[i].name != name
    ensures r.Some? ==> exists i :: 0 <= i < |roles| && roles[i].name == name && roles[i].id == r.value
                                   && forall j :: 0 <= j < i ==> roles[j].name != name
  {
    if roles == [] then None
    else if roles[0].name == name then Some(roles[0].id)
    else
      var r := FindRoleByName(roles[1..], name);
      assert forall j :: 1 <= j < |roles| ==> roles[j] == roles[1..][j - 1];
      r
  }

  /**
   * The overwrites the ticket channel is created with: the default role
   * may not view it, the requester and, when present, the staff role may
   * view, send and read history.
   */
  function Overwrites(defaultRoleId: int, userId: int, staffRole: Option<int>): (m: map<Target, Overwrite>)
    ensures m.Keys == {RoleTarget(defaultRoleId), MemberTarget(userId)}
                      + (if staffRole.Some? then {RoleTarget(staffRole.value)} else {})
    ensures m[MemberTarget(userId)] == Participant
    ensures staffRole.Some? ==> m[RoleTarget(staffRole.value)] == Participant
    ensures staffRole != Some(defaultRoleId) ==> m[RoleTarget(defaultRoleId)] == Hidden
  {
    var base := map[RoleTarget(defaultRoleId) := Hidden, MemberTarget(userId) := Participant];
    if staffRole.Some? then base[RoleTarget(staffRole.value) := Participant] else base
  }

  /**
   * For a guild whose default role is not named `Staff`, the channel gets a
   * third, staff entry exactly when a role named `Staff` exists, and the
   * default role is always hidden.
   */
  lemma StaffEntryIffStaffRole(roles: seq<RoleInfo>, defaultRoleId: int, userId: int)
    requires forall i :: 0 <= i < |roles| && roles[i].id == defaultRoleId ==> roles[i].name != StaffRoleName
    ensures var m := Overwrites(defaultRoleId, userId, FindRoleByName(roles, StaffRoleName));
            && m[RoleTarget(defaultRoleId)] == Hidden
            && ((exists i :: 0 <= i < |roles| && roles[i].name == StaffRoleName) <==>
                (exists t :: t in m && t.RoleTarget? && t.roleId != defaultRoleId && m[t] == Participant))
  {
    var staff := FindRoleByName(roles, StaffRoleName);
    var m := Overwrites(defaultRoleId, userId, staff);
    if staff.Some? {
      assert RoleTarget(staff.value) in m;
    }
  }
}
