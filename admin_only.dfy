/** The route guards of the admin middleware: `adminOnly` admits a user whose role is
    "admin", and `hasPermission(role, action)` admits a user one of whose permissions
    is for that role and lists the action among its comma-separated access levels. */
module AdminOnly {
  import opened JsValues
  import opened Strings

  /** One row of the user's permissions: a role and its access levels,
      written as a comma-separated list such as "read, write, delete". */
  datatype Permission = Permission(role: string, accessLevel: string)

  /** The authenticated user the token middleware attached to the request. */
  datatype User = User(id: int, role: string, adminId: Option<int>, permissions: Option<seq<Permission>>)

  /** What a guard does with a request: hand it to the next handler, or answer with
      an error status and not call the next handler. */
  datatype Gate = Next | Deny(status: int)

  /** `adminOnly`. */
  function AdminGate(user: Option<User>): (g: Gate)
    ensures g == Next <==> user.Some? && user.value.role == "admin"
    ensures g != Next ==> g == Deny(403)
  {
    if user.None? || user.value.role != "admin" then Deny(403) else Next
  }

  /** `pieces.map(action => action.trim())`. */
  function TrimAll(pieces: seq<string>): (ts: seq<string>)
    ensures |ts| == |pieces|
    ensures forall i :: 0 <= i < |ts| ==> ts[i] == Trim(pieces[i])
  {
    if pieces == [] then [] else [Trim(pieces[0])] + TrimAll(pieces[1..])
  }

  /** The trimmed comma-separated tokens of an access-level string. */
  function Tokens(accessLevel: string): seq<string> {
    TrimAll(Split(accessLevel, ','))
  }

  /** The test inside `some`: the permission is for the role and lists the action. */
  predicate Grants(p: Permission, role: string, action: string) {
    p.role == role && action in Tokens(p.accessLevel)
  }

  /** `permissions.some(p => ...)`, scanning the list from the front. */
  predicate HasAccess(permissions: seq<Permission>, role: string, action: string) {
    permissions != [] &&
    (Grants(permissions[0], role, action) || HasAccess(permissions[1..], role, action))
  }

  /** `req.user?.permissions || []`. */
  function PermissionsOf(user: Option<User>): seq<Permission> {
    if user.Some? && user.value.permissions.Some? then user.value.permissions.value else []
  }

  /** `hasPermission(role, action)`. */
  function PermissionGate(role: string, action: string, user: Option<User>): (g: Gate)
    ensures g == Next <==> HasAccess(PermissionsOf(user), role, action)
    ensures g != Next ==> g == Deny(403)
  {
    if HasAccess(PermissionsOf(user), role, action) then Next else Deny(403)
  }

  /** Access is granted exactly when some permission in the list grants it. */
  lemma {:induction false} HasAccessIff(permissions: seq<Permission>, role: string, action: string)
    ensures HasAccess(permissions, role, action) <==>
            exists i :: 0 <= i < |permissions| && Grants(permissions[i], role, action)
    decreases |permissions|
  {
    if permissions != [] {
      HasAccessIff(permissions[1..], role, action);
      if HasAccess(permissions[1..], role, action) {
        var i :| 0 <= i < |permissions[1..]| && Grants(permissions[1..][i], role, action);
        assert Grants(permissions[i + 1], role, action);
      }
      if exists i :: 0 <= i < |permissions| && Grants(permissions[i], role, action) {
        var i :| 0 <= i < |permissions| && Grants(permissions[i], role, action);
        if i > 0 {
          assert Grants(permissions[1..][i - 1], role, action);
        }
      }
    }
  }

  /** A user without a permissions list is refused every permission check. */
  lemma NoPermissionsDenied(user: Option<User>, role: string, action: string)
    requires user.None? || user.value.permissions.None?
    ensures PermissionGate(role, action, user) == Deny(403)
  {
  }

  /** Only the set of permissions matters: reordering or repeating rows changes nothing. */
  lemma AccessIgnoresOrder(p1: seq<Permission>, p2: seq<Permission>, role: string, action: string)
    requires forall p :: p in p1 <==> p in p2
    ensures HasAccess(p1, role, action) == HasAccess(p2, role, action)
  {
    HasAccessIff(p1, role, action);
    HasAccessIff(p2, role, action);
    if HasAccess(p1, role, action) {
      var i :| 0 <= i < |p1| && Grants(p1[i], role, action);
      assert p1[i] in p2;
    }
    if HasAccess(p2, role, action) {
      var i :| 0 <= i < |p2| && Grants(p2[i], role, action);
      assert p2[i] in p1;
    }
  }

  /** Adding a permission never revokes access. */
  lemma AddingNeverRevokes(permissions: seq<Permission>, extra: Permission, role: string, action: string)
    requires HasAccess(permissions, role, action)
    ensures HasAccess(permissions + [extra], role, action)
    ensures HasAccess([extra] + permissions, role, action)
  {
    AccessIgnoresOrder(permissions + [extra], [extra] + permissions, role, action);
    HasAccessIff(permissions, role, action);
    HasAccessIff(permissions + [extra], role, action);
    var i :| 0 <= i < |permissions| && Grants(permissions[i], role, action);
    assert (permissions + [extra])[i] == permissions[i];
  }

  /** Permissions written for other roles never grant access. */
  lemma OtherRolesNeverGrant(permissions: seq<Permission>, role: string, action: string)
    requires forall i :: 0 <= i < |permissions| ==> permissions[i].role != role
    ensures !HasAccess(permissions, role, action)
  {
    HasAccessIff(permissions, role, action);
  }

  /** The tokens of a joined list are its pieces, trimmed. */
  lemma TokensOfJoin(pieces: seq<string>)
    requires |pieces| >= 1
    requires forall i :: 0 <= i < |pieces| ==> ',' !in pieces[i]
    ensures Tokens(Join(pieces, ',')) == TrimAll(pieces)
  {
    SplitJoin(pieces, ',');
  }

  /** No piece of `before + [mid] + after` holds a comma when none of the parts does. */
  lemma NoCommaInPieces(before: seq<string>, mid: string, after: seq<string>)
    requires ',' !in mid
    requires forall i :: 0 <= i < |before| ==> ',' !in before[i]
    requires forall i :: 0 <= i < |after| ==> ',' !in after[i]
    ensures forall i :: 0 <= i < |before + [mid] + after| ==> ',' !in (before + [mid] + after)[i]
  {
    var pieces := before + [mid] + after;
    forall i | 0 <= i < |pieces| ensures ',' !in pieces[i] {
      if i < |before| {
        assert pieces[i] == before[i];
      } else if i > |before| {
        assert pieces[i] == after[i - |before| - 1];
      }
    }
  }

  /** A permission for the role grants an action when the action is one of its
      tokens once the whitespace around it is removed. */
  lemma PaddedTokenGrants(role: string, before: seq<string>, lead: string, action: string,
                          trail: string, after: seq<string>)
    requires AllWhitespace(lead) && AllWhitespace(trail) && Trimmed(action)
    requires ',' !in lead + action + trail
    requires forall i :: 0 <= i < |before| ==> ',' !in before[i]
    requires forall i :: 0 <= i < |after| ==> ',' !in after[i]
    ensures Grants(Permission(role, Join(before + [lead + action + trail] + after, ',')), role, action)
  {
    var mid := lead + action + trail;
    var pieces := before + [mid] + after;
    NoCommaInPieces(before, mid, after);
    TokensOfJoin(pieces);
    TrimPadded(lead, action, trail);
    assert pieces[|before|] == mid;
    assert TrimAll(pieces)[|before|] == action;
  }

  /** Three pieces join with a separator between each neighbouring pair. */
  lemma JoinThree(a: string, b: string, c: string, sep: char)
    ensures Join([a, b, c], sep) == a + [sep] + b + [sep] + c
  {
    assert [a, b, c][1..] == [b, c];
    assert [b, c][1..] == [c];
    assert Join([b, c], sep) == b + [sep] + c;
    assert a + [sep] + (b + [sep] + c) == a + [sep] + b + [sep] + c;
  }

  /** A token that is one space followed by a trimmed word trims to the word. */
  lemma TrimAfterSpace(w: string)
    requires Trimmed(w)
    ensures Trim([' '] + w) == w
  {
    assert [' '] + w + [] == [' '] + w;
    TrimPadded([' '], w, []);
  }

  /** Three trimmed words, written with a comma and a space between neighbours,
      come back as the three words. */
  lemma TokensOfSpacedList(a: string, b: string, c: string)
    requires Trimmed(a) && Trimmed(b) && Trimmed(c)
    requires ',' !in a && ',' !in b && ',' !in c
    ensures Tokens(Join([a, [' '] + b, [' '] + c], ',')) == [a, b, c]
  {
    var pieces := [a, [' '] + b, [' '] + c];
    TokensOfJoin(pieces);
    TrimmedIsFixed(a);
    TrimAfterSpace(b);
    TrimAfterSpace(c);
    assert TrimAll(pieces) == [a, b, c];
  }

  /** The tokens of "read, write, delete" are exactly "read", "write" and "delete". */
  lemma ReadWriteDeleteTokens(level: string)
    requires level == "read, write, delete"
    ensures Tokens(level) == ["read", "write", "delete"]
  {
    var pieces := ["read", [' '] + "write", [' '] + "delete"];
    JoinThree(pieces[0], pieces[1], pieces[2], ',');
    assert Join(pieces, ',') == level;
    TokensOfSpacedList("read", "write", "delete");
  }

  /** Tokens match exactly after trimming: "read, write, delete" grants `write`,
      and grants neither `wr` nor `writ`. */
  lemma ExactTokenMatch(role: string, level: string)
    requires level == "read, write, delete"
    ensures Grants(Permission(role, level), role, "write")
    ensures !Grants(Permission(role, level), role, "wr")
    ensures !Grants(Permission(role, level), role, "writ")
  {
    ReadWriteDeleteTokens(level);
  }
}
