/**
 * The reservable currency the identity pallet draws deposits from.
 *
 * Every account has a free and a reserved balance; an account missing from
 * a map has balance zero. Only the four operations the pallet calls are
 * modelled: reserve, unreserve, slash a reserve, and move a reserve to
 * another account's free balance.
 */
module Balances {

  type AccountId = nat

  /** The balance of `a` in `m`, zero when `a` has no entry. */
  function Get(m: map<AccountId, nat>, a: AccountId): nat {
    if a in m then m[a] else 0
  }

  /** `m1` is `m0` with the balance of `who` moved by `delta` and every other balance equal. */
  ghost predicate Adjusted(m0: map<AccountId, nat>, m1: map<AccountId, nat>, who: AccountId, delta: int) {
    && Get(m1, who) == Get(m0, who) + delta
    && forall a | a != who :: Get(m1, a) == Get(m0, a)
  }

  function Min(x: nat, y: nat): nat {
    if x < y then x else y
  }

  class Currency {
    var free: map<AccountId, nat>
    var reserved: map<AccountId, nat>

    function Free(a: AccountId): nat
      reads this
    {
      Get(free, a)
    }

    function Reserved(a: AccountId): nat
      reads this
    {
      Get(reserved, a)
    }

    /** Genesis: the given free balances, nothing reserved. */
    constructor (genesis: map<AccountId, nat>)
      ensures free == genesis && reserved == map[]
    {
      free := genesis;
      reserved := map[];
    }

    /** Moves `value` from the free to the reserved balance of `who`; fails, changing nothing, when the free balance is short. */
    method Reserve(who: AccountId, value: nat) returns (ok: bool)
      modifies this
      ensures ok <==> value <= old(Free(who))
      ensures ok ==> Adjusted(old(free), free, who, -(value as int)) && Adjusted(old(reserved), reserved, who, value)
      ensures !ok ==> free == old(free) && reserved == old(reserved)
    {
      if Free(who) < value {
        return false;
      }
      reserved := reserved[who := Reserved(who) + value];
      free := free[who := Free(who) - value];
      return true;
    }

    /** Moves as much of `value` as is reserved back to the free balance of `who`; returns the part it could not move. */
    method Unreserve(who: AccountId, value: nat) returns (remaining: nat)
      modifies this
      ensures var actual := Min(value, old(Reserved(who)));
        && remaining == value - actual
        && Adjusted(old(free), free, who, actual)
        && Adjusted(old(reserved), reserved, who, -(actual as int))
    {
      var b := Reserved(who);
      var actual := Min(b, value);
      free := free[who := Free(who) + actual];
      reserved := reserved[who := b - actual];
      remaining := value - actual;
    }

    /** Destroys as much of `value` as is reserved by `who`; returns the part it could not slash. */
    method SlashReserved(who: AccountId, value: nat) returns (remaining: nat)
      modifies this
      ensures var slash := Min(value, old(Reserved(who)));
        && remaining == value - slash
        && free == old(free)
        && Adjusted(old(reserved), reserved, who, -(slash as int))
    {
      var b := Reserved(who);
      var slash := Min(b, value);
      reserved := reserved[who := b - slash];
      remaining := value - slash;
    }

    /** Moves as much of `value` as `slashed` has reserved to the free balance of `beneficiary`; returns the part it could not move. */
    method RepatriateReserved(slashed: AccountId, beneficiary: AccountId, value: nat) returns (remaining: nat)
      modifies this
      ensures var moved := Min(value, old(Reserved(slashed)));
        && remaining == value - moved
        && Adjusted(old(free), free, beneficiary, moved)
        && Adjusted(old(reserved), reserved, slashed, -(moved as int))
    {
      var b := Reserved(slashed);
      var moved := Min(b, value);
      free := free[beneficiary := Free(beneficiary) + moved];
      reserved := reserved[slashed := b - moved];
      remaining := value - moved;
    }
  }
}
