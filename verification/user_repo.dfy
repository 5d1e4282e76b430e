/**
 * The users table. Ids are handed out in insertion order (user `k` is row
 * `k - 1`) and usernames are unique.
 */
module UserRepo {
  import opened Wrappers
  import opened Users
  import opened RepoErrors

  /** The balance every new account starts with. */
  const StartingBalance: real := 1000.0

  /** Where `name` sits in `us`, if anywhere. */
  function IndexOfUsername(us: seq<User>, name: string): (r: Option<nat>)
    ensures r.Some? ==> r.value < |us| && us[r.value].username == name
    ensures r.None? <==> forall i :: 0 <= i < |us| ==> us[i].username != name
  {
    if |us| == 0 then None
    else if us[|us| - 1].username == name then Some(|us| - 1)
    else IndexOfUsername(us[..|us| - 1], name)
  }

  /** Ids are row numbers and usernames are unique. */
  ghost predicate ValidRows(us: seq<User>) {
    && (forall i :: 0 <= i < |us| ==> us[i].id == i + 1)
    && (forall i, j :: 0 <= i < j < |us| ==> us[i].username != us[j].username)
  }

  /** The table after `amount` is credited to user `id` (no change if absent). */
  function Credited(us: seq<User>, id: int, amount: real): (r: seq<User>)
    ensures |r| == |us|
    ensures forall i :: 0 <= i < |us| ==> r[i].(balance := us[i].balance) == us[i]
    ensures forall i :: 0 <= i < |us| ==> r[i].balance == us[i].balance + (if i == id - 1 then amount else 0.0)
    ensures ValidRows(us) ==> ValidRows(r)
  {
    if 1 <= id <= |us| then us[id - 1 := us[id - 1].AddBalance(amount)] else us
  }

  /** The table after `amount` is debited from user `id` (no change if absent). */
  function Debited(us: seq<User>, id: int, amount: real): (r: seq<User>)
    ensures |r| == |us|
    ensures forall i :: 0 <= i < |us| ==> r[i].(balance := us[i].balance) == us[i]
    ensures forall i :: 0 <= i < |us| ==> r[i].balance == us[i].balance - (if i == id - 1 then amount else 0.0)
    ensures ValidRows(us) ==> ValidRows(r)
  {
    if 1 <= id <= |us| then us[id - 1 := us[id - 1].(balance := us[id - 1].balance - amount)] else us
  }

  /** The sum of all balances. */
  function TotalBalance(us: seq<User>): real {
    if |us| == 0 then 0.0 else TotalBalance(us[..|us| - 1]) + us[|us| - 1].balance
  }

  /** A credit raises the sum of all balances by the amount, or leaves it when the user is absent. */
  lemma {:induction false} CreditedTotal(us: seq<User>, id: int, amount: real)
    ensures TotalBalance(Credited(us, id, amount)) == TotalBalance(us) + (if 1 <= id <= |us| then amount else 0.0)
    decreases |us|
  {
    if |us| > 0 {
      var r := Credited(us, id, amount);
      var n := |us| - 1;
      assert r[..n] == Credited(us[..n], id, amount);
      CreditedTotal(us[..n], id, amount);
    }
  }

  class UserTable {
    var rows: seq<User>

    ghost predicate Valid()
      reads this
    {
      ValidRows(rows)
    }

    constructor ()
      ensures Valid() && rows == []
    {
      rows := [];
    }

    predicate Has(id: int)
      reads this
    {
      1 <= id <= |rows|
    }

    predicate UsernameTaken(name: string)
      reads this
    {
      exists i :: 0 <= i < |rows| && rows[i].username == name
    }

    /**
     * Registers a new account with the starting balance; a username already in
     * use is refused with no change.
     */
    method Create(username: string, passwordHash: string) returns (r: Result<User, RepositoryError>)
      requires Valid()
      modifies this
      ensures Valid()
      ensures old(UsernameTaken(username)) ==>
        r == Failure(ConstraintViolation("Username already exists")) && rows == old(rows)
      ensures !old(UsernameTaken(username)) ==>
        r == Success(User(|old(rows)| + 1, username, passwordHash, StartingBalance)) && rows == old(rows) + [r.value]
    {
      if IndexOfUsername(rows, username).Some? {
        r := Failure(ConstraintViolation("Username already exists"));
      } else {
        var u := User(|rows| + 1, username, passwordHash, StartingBalance);
        rows := rows + [u];
        r := Success(u);
      }
    }

    /** The user with this id, or NotFound. */
    function FindById(id: int): (r: Result<User, RepositoryError>)
      reads this
      requires Valid()
      ensures r.Success? <==> exists i :: 0 <= i < |rows| && rows[i].id == id
      ensures r.Success? ==> r.value.id == id && r.value in rows
      ensures r.Failure? ==> r.error == NotFound
    {
      if 1 <= id <= |rows| then Success(rows[id - 1]) else Failure(NotFound)
    }

    /** The user with this username (there is at most one), or NotFound. */
    function FindByUsername(name: string): (r: Result<User, RepositoryError>)
      reads this
      requires Valid()
      ensures r.Success? <==> UsernameTaken(name)
      ensures r.Success? ==> r.value.username == name && r.value in rows
      ensures r.Failure? ==> r.error == NotFound
    {
      match IndexOfUsername(rows, name)
      case Some(i) => Success(rows[i])
      case None => Failure(NotFound)
    }

    /** Overwrites one user's balance. */
    method UpdateBalance(id: int, newBalance: real) returns (r: Result<(), RepositoryError>)
      requires Valid()
      modifies this
      ensures Valid()
      ensures r.Success? <==> old(Has(id))
      ensures r.Success? ==> rows == old(rows)[id - 1 := old(rows)[id - 1].(balance := newBalance)]
      ensures r.Failure? ==> r.error == NotFound && rows == old(rows)
    {
      if 1 <= id <= |rows| {
        rows := rows[id - 1 := rows[id - 1].(balance := newBalance)];
        r := Success(());
      } else {
        r := Failure(NotFound);
      }
    }

    /**
     * Debits `amount` only when the user exists and can afford it; otherwise
     * reports "Insufficient balance" (even for a missing user) with no change.
     */
    method DeductBalance(id: int, amount: real) returns (r: Result<(), RepositoryError>)
      requires Valid()
      modifies this
      ensures Valid()
      ensures r.Success? <==> old(Has(id)) && old(rows)[id - 1].DeductBalance(amount).Success?
      ensures r.Success? ==> rows == Debited(old(rows), id, amount)
      ensures r.Success? ==> rows[id - 1] == old(rows)[id - 1].DeductBalance(amount).value
      ensures r.Failure? ==> r == Failure(ConstraintViolation("Insufficient balance")) && rows == old(rows)
    {
      if 1 <= id <= |rows| && rows[id - 1].balance >= amount {
        rows := Debited(rows, id, amount);
        r := Success(());
      } else {
        r := Failure(ConstraintViolation("Insufficient balance"));
      }
    }

    /** Credits `amount` to one user. */
    method AddBalance(id: int, amount: real) returns (r: Result<(), RepositoryError>)
      requires Valid()
      modifies this
      ensures Valid()
      ensures r.Success? <==> old(Has(id))
      ensures rows == Credited(old(rows), id, amount)
      ensures r.Failure? ==> r.error == NotFound
    {
      if 1 <= id <= |rows| {
        rows := Credited(rows, id, amount);
        r := Success(());
      } else {
        r := Failure(NotFound);
      }
    }
  }
}
