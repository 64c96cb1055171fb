/**
 * UserAdapter.java: the list of users on the user-management screen and which
 * row of it is selected. The selection is a position, not a user: replacing
 * the list keeps the position, so the selected user is whatever now sits
 * there, or nobody when the new list is too short. A row's click handler is
 * installed when the row is bound and remembers the user bound to it; the
 * position it records is the one the list reports at click time.
 */
module UserAdapter {
  import opened Entities

  /** `UserAdapter.User`: every field is a string, the id included. */
  datatype User = User(id: string, username: string, email: string, role: string)

  /** `RecyclerView.NO_POSITION`. */
  const NO_POSITION: int := -1

  /** A listener object, known only by its identity. */
  type ListenerRef = nat

  /** One call of `onUserClick(user, position)` on the listener `listener`. */
  datatype ClickNotice = ClickNotice(listener: ListenerRef, user: User, position: int)

  /** What `onBindViewHolder` puts on a row: its user, and whether it shows as selected. */
  datatype BoundRow = BoundRow(user: User, selected: bool)

  /** `getSelectedUser()` over a list and a selected position. */
  function SelectedIn(users: seq<User>, selectedPosition: int): (r: Option<User>)
    requires selectedPosition >= NO_POSITION
    ensures r.Some? <==> 0 <= selectedPosition < |users|
    ensures r.Some? ==> r.value == users[selectedPosition]
  {
    if selectedPosition != NO_POSITION && selectedPosition < |users| then Some(users[selectedPosition])
    else None
  }

  class UserAdapter {
    var users: seq<User>
    var selectedPosition: int
    var listener: Option<ListenerRef>

    /** The position is a list index or NO_POSITION, the only values a click records. */
    ghost predicate Valid()
      reads this
    {
      selectedPosition >= NO_POSITION
    }

    /** A new adapter: an empty list, nothing selected, no listener. */
    constructor ()
      ensures Valid() && users == [] && selectedPosition == NO_POSITION && listener == None
      ensures GetSelectedUser() == None
    {
      users := [];
      selectedPosition := NO_POSITION;
      listener := None;
    }

    method SetOnUserClickListener(l: Option<ListenerRef>)
      modifies this`listener
      ensures listener == l
    {
      listener := l;
    }

    /** Replaces the list; the selected position is left as it was. */
    method SetUsers(newUsers: seq<User>)
      requires Valid()
      modifies this`users
      ensures Valid() && users == newUsers && selectedPosition == old(selectedPosition)
      ensures GetSelectedUser() == SelectedIn(newUsers, old(selectedPosition))
      ensures old(selectedPosition) >= |newUsers| ==> GetSelectedUser() == None
    {
      users := newUsers;
    }

    /** The list most recently set. */
    function GetUsers(): (r: seq<User>)
      reads this
      ensures |r| == GetItemCount()
    {
      users
    }

    /** The user at the selected position, or nothing while no position is selected or
        the list does not reach it. */
    function GetSelectedUser(): (r: Option<User>)
      requires Valid()
      reads this
      ensures r.Some? <==> selectedPosition != NO_POSITION && selectedPosition < |users|
      ensures r.Some? ==> r.value == users[selectedPosition]
    {
      SelectedIn(users, selectedPosition)
    }

    function GetItemCount(): (n: nat)
      reads this
      ensures n == |users|
    {
      |users|
    }

    /** `onBindViewHolder(holder, position)`: the row shows the user at `position`, marked
        selected exactly when `position` is the selected one. */
    function Bind(position: int): (row: BoundRow)
      requires 0 <= position < |users|
      reads this
      ensures row.user == users[position]
      ensures row.selected <==> position == selectedPosition
    {
      BoundRow(users[position], selectedPosition == position)
    }

    /** The click handler of a row bound to `boundUser`, run when the list reports the row
        at `adapterPosition`: that position becomes the selected one, the old and the new
        positions are redrawn, and a listener, if one is set, hears of the bound user and
        the new position. */
    method OnClick(boundUser: User, adapterPosition: int) returns (redrawn: seq<int>, notice: Option<ClickNotice>)
      requires Valid() && adapterPosition >= NO_POSITION
      modifies this`selectedPosition
      ensures Valid() && selectedPosition == adapterPosition
      ensures redrawn == [old(selectedPosition), adapterPosition]
      ensures notice.Some? <==> listener.Some?
      ensures notice.Some? ==> notice.value == ClickNotice(listener.value, boundUser, adapterPosition)
      ensures GetSelectedUser() == SelectedIn(users, adapterPosition)
    {
      var oldPosition := selectedPosition;
      selectedPosition := adapterPosition;
      redrawn := [oldPosition, selectedPosition];
      if listener.Some? {
        notice := Some(ClickNotice(listener.value, boundUser, selectedPosition));
      } else {
        notice := None;
      }
    }
  }

  /** A row is bound and then clicked while the list still reports it at the same
      position: that row's user becomes the selected user, and the listener, if any,
      hears of that same user. */
  method ClickBoundRow(adapter: UserAdapter, position: int) returns (notice: Option<ClickNotice>)
    requires adapter.Valid() && 0 <= position < |adapter.users|
    modifies adapter`selectedPosition
    ensures adapter.Valid() && adapter.GetSelectedUser() == Some(adapter.users[position])
    ensures notice.Some? <==> adapter.listener.Some?
    ensures notice.Some? ==> notice.value.user == adapter.users[position] && notice.value.position == position
  {
    var row := adapter.Bind(position);
    var _, n := adapter.OnClick(row.user, position);
    notice := n;
  }
}
