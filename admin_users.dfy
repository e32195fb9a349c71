/**
 * The ban/unban toggle of the user administration page
 * (src/pages/AdminUsers.tsx): the status flip and the update of the listed
 * users. The store write is returned as a value instead of being sent.
 */
module AdminUsers {

  datatype UserRole = Admin | Writer | User

  /** A listed user; `status` is the stored string ("active" or "banned"). */
  datatype UserProfile = UserProfile(uid: string, email: string, displayName: string,
                                     role: UserRole, status: string, createdAt: int)

  const ACTIVE: string := "active"
  const BANNED: string := "banned"

  /** The status the toggle writes: an active user is banned, anyone else becomes active. */
  function NextStatus(current: string): (s: string)
    ensures s == BANNED <==> current == ACTIVE
    ensures s == ACTIVE <==> current != ACTIVE
  {
    if current == ACTIVE then BANNED else ACTIVE
  }

  /** Toggling twice gives back either of the two statuses. */
  lemma ToggleTwice(s: string)
    requires s == ACTIVE || s == BANNED
    ensures NextStatus(NextStatus(s)) == s
  {
  }

  /** The local list after the write: entries with the uid take the new status, the rest are copied as they are. */
  function WithStatus(users: seq<UserProfile>, uid: string, status: string): (r: seq<UserProfile>)
    ensures |r| == |users|
    ensures forall i :: 0 <= i < |users| && users[i].uid == uid ==> r[i] == users[i].(status := status)
    ensures forall i :: 0 <= i < |users| && users[i].uid != uid ==> r[i] == users[i]
  {
    if users == [] then []
    else
      [if users[0].uid == uid then users[0].(status := status) else users[0]]
      + WithStatus(users[1..], uid, status)
  }

  /** The `updateDoc` the handler issues. */
  datatype StatusWrite = StatusWrite(uid: string, status: string)

  /** The write issued and the local list afterwards. */
  datatype Toggled = Toggled(write: StatusWrite, users: seq<UserProfile>)

  /**
   * `handleToggleUserStatus(uid, currentStatus)`: writes the flipped status
   * for `uid`; once the write is acknowledged (`writeSucceeds`), every listed
   * entry with that uid gets the new status, its other fields copied, and the
   * other entries, the length and the order are unchanged. A rejected write
   * throws before the list is touched.
   */
  function HandleToggleUserStatus(users: seq<UserProfile>, uid: string, currentStatus: string,
                                  writeSucceeds: bool): (r: Toggled)
    ensures r.write.uid == uid && r.write.status == NextStatus(currentStatus)
    ensures !writeSucceeds ==> r.users == users
    ensures |r.users| == |users|
    ensures forall i :: 0 <= i < |users| ==>
      && r.users[i].uid == users[i].uid && r.users[i].email == users[i].email
      && r.users[i].displayName == users[i].displayName && r.users[i].role == users[i].role
      && r.users[i].createdAt == users[i].createdAt
      && r.users[i].status == (if writeSucceeds && users[i].uid == uid then r.write.status else users[i].status)
  {
    var newStatus := NextStatus(currentStatus);
    Toggled(StatusWrite(uid, newStatus), if writeSucceeds then WithStatus(users, uid, newStatus) else users)
  }

  /**
   * Pressing the button twice restores the list: when the matching entries
   * show the status the button was given, the second press puts it back.
   */
  lemma ToggleTwiceRestoresUsers(users: seq<UserProfile>, uid: string, s: string)
    requires s == ACTIVE || s == BANNED
    requires forall i :: 0 <= i < |users| && users[i].uid == uid ==> users[i].status == s
    ensures var once := HandleToggleUserStatus(users, uid, s, true);
      HandleToggleUserStatus(once.users, uid, once.write.status, true).users == users
  {
    var once := HandleToggleUserStatus(users, uid, s, true);
    var twice := HandleToggleUserStatus(once.users, uid, once.write.status, true);
    assert forall i :: 0 <= i < |users| ==> twice.users[i] == users[i];
  }
}
