/**
 * The identity pallet: a federated naming system.
 *
 * Accounts register identity information against a deposit, name
 * sub-accounts against a further deposit per sub-account, and ask
 * registrars for judgements, reserving each registrar's fee until the
 * judgement is given. Registrars are added by a privileged origin; a
 * privileged origin may also remove an identity and slash its deposits.
 *
 * Storage is the three tables `IdentityOf`, `SubsOf` and `Registrars`;
 * balances live in the `Currency` the pallet reserves from. `Valid()` is
 * the ledger invariant every call keeps: judgement lists strictly sorted
 * by registrar, deposits matching the information they pay for, and every
 * account's reserved balance equal to the deposits and fees recorded for it.
 */
module IdentityPallet {
  import opened Wrappers
  import opened Judgements
  import opened Balances
  import DataCodec

  /** The identity fields a registrar attests (`BitFlags<IdentityField>`), an opaque mask of the seven field bits. */
  type IdentityFields = b: bv64 | b < 0x80

  /** A PGP fingerprint (`[u8; 20]`). */
  type Fingerprint = s: seq<DataCodec.byte> | |s| == 20 witness seq(20, i => 0)

  /** The information an account registers about itself. */
  datatype IdentityInfo = IdentityInfo(
    additional: seq<(DataCodec.Data, DataCodec.Data)>,
    display: DataCodec.Data,
    legal: DataCodec.Data,
    web: DataCodec.Data,
    riot: DataCodec.Data,
    email: DataCodec.Data,
    pgpFingerprint: Option<Fingerprint>,
    image: DataCodec.Data)

  /** An account's registration: registrar judgements (by registrar index), its deposit and its information. */
  datatype Registration = Registration(judgements: seq<Entry>, deposit: nat, info: IdentityInfo)

  /** All a registration holds in reserve: its deposit plus the fees of its `FeePaid` judgements. */
  function TotalDeposit(reg: Registration): (t: nat)
    ensures t >= reg.deposit
  {
    reg.deposit + FeesHeld(reg.judgements)
  }

  /** A registrar: its account, the fee it charges for a judgement, the fields it attests. */
  datatype RegistrarInfo = RegistrarInfo(account: AccountId, fee: nat, fields: IdentityFields)

  /** An `SubsOf` entry: the deposit held for the sub-accounts, and the sub-accounts with their names. */
  datatype Subs = Subs(deposit: nat, accounts: seq<(AccountId, DataCodec.Data)>)

  /** Every `Data` in `info` is one the `Data` codec reproduces: what `IdentityOf` can give back. */
  predicate InfoWellFormed(info: IdentityInfo) {
    && (forall i | 0 <= i < |info.additional| ::
          DataCodec.WellFormed(info.additional[i].0) && DataCodec.WellFormed(info.additional[i].1))
    && DataCodec.WellFormed(info.display) && DataCodec.WellFormed(info.legal)
    && DataCodec.WellFormed(info.web) && DataCodec.WellFormed(info.riot)
    && DataCodec.WellFormed(info.email) && DataCodec.WellFormed(info.image)
  }

  /**
   * `info` as `IdentityOf` holds it: the table stores the SCALE encoding,
   * so every `Data` goes through the `Data` codec and a `Raw` blob over
   * 32 bytes comes back cut to 32.
   */
  function TruncatedInfo(info: IdentityInfo): (t: IdentityInfo)
    ensures InfoWellFormed(t)
    ensures InfoWellFormed(info) ==> t == info
    ensures |t.additional| == |info.additional| && t.pgpFingerprint == info.pgpFingerprint
  {
    var additional := seq(|info.additional|, i requires 0 <= i < |info.additional| =>
      (DataCodec.Truncated(info.additional[i].0), DataCodec.Truncated(info.additional[i].1)));
    assert InfoWellFormed(info) ==> additional == info.additional;
    IdentityInfo(additional, DataCodec.Truncated(info.display), DataCodec.Truncated(info.legal),
      DataCodec.Truncated(info.web), DataCodec.Truncated(info.riot), DataCodec.Truncated(info.email),
      info.pgpFingerprint, DataCodec.Truncated(info.image))
  }

  /** Sub-accounts as `SubsOf` holds them: each name goes through the `Data` codec. */
  function TruncatedSubs(subs: seq<(AccountId, DataCodec.Data)>): (t: seq<(AccountId, DataCodec.Data)>)
    ensures |t| == |subs|
    ensures forall i | 0 <= i < |t| :: t[i].0 == subs[i].0 && DataCodec.WellFormed(t[i].1)
    ensures (forall i | 0 <= i < |subs| :: DataCodec.WellFormed(subs[i].1)) ==> t == subs
  {
    seq(|subs|, i requires 0 <= i < |subs| => (subs[i].0, DataCodec.Truncated(subs[i].1)))
  }

  /** Each `Data` of `TruncatedInfo(info)` is exactly what decoding the encoding of the one in `info` gives. */
  lemma TruncatedInfoDecodes(info: IdentityInfo)
    ensures var t := TruncatedInfo(info);
      && DataCodec.Decode(DataCodec.Encode(info.display)) == Ok((t.display, []))
      && DataCodec.Decode(DataCodec.Encode(info.legal)) == Ok((t.legal, []))
      && DataCodec.Decode(DataCodec.Encode(info.web)) == Ok((t.web, []))
      && DataCodec.Decode(DataCodec.Encode(info.riot)) == Ok((t.riot, []))
      && DataCodec.Decode(DataCodec.Encode(info.email)) == Ok((t.email, []))
      && DataCodec.Decode(DataCodec.Encode(info.image)) == Ok((t.image, []))
      && forall i | 0 <= i < |info.additional| ::
           && DataCodec.Decode(DataCodec.Encode(info.additional[i].0)) == Ok((t.additional[i].0, []))
           && DataCodec.Decode(DataCodec.Encode(info.additional[i].1)) == Ok((t.additional[i].1, []))
  {
    DataCodec.DecodeWhole(info.display);
    DataCodec.DecodeWhole(info.legal);
    DataCodec.DecodeWhole(info.web);
    DataCodec.DecodeWhole(info.riot);
    DataCodec.DecodeWhole(info.email);
    DataCodec.DecodeWhole(info.image);
    forall i | 0 <= i < |info.additional|
      ensures DataCodec.Decode(DataCodec.Encode(info.additional[i].0)) == Ok((TruncatedInfo(info).additional[i].0, []))
      ensures DataCodec.Decode(DataCodec.Encode(info.additional[i].1)) == Ok((TruncatedInfo(info).additional[i].1, []))
    {
      DataCodec.DecodeWhole(info.additional[i].0);
      DataCodec.DecodeWhole(info.additional[i].1);
    }
  }

  /** Each name of `TruncatedSubs(subs)` is exactly what decoding the encoding of the one in `subs` gives. */
  lemma TruncatedSubsDecodes(subs: seq<(AccountId, DataCodec.Data)>)
    ensures forall i | 0 <= i < |subs| ::
              DataCodec.Decode(DataCodec.Encode(subs[i].1)) == Ok((TruncatedSubs(subs)[i].1, []))
  {
    forall i | 0 <= i < |subs|
      ensures DataCodec.Decode(DataCodec.Encode(subs[i].1)) == Ok((TruncatedSubs(subs)[i].1, []))
    {
      DataCodec.DecodeWhole(subs[i].1);
    }
  }

  /** The errors a call can fail with; each names the message the pallet returns. */
  datatype Error =
    | BadOrigin            // "bad origin"
    | NotFound             // "not found"
    | TooManySubs          // "too many subs"
    | NotNamed             // "not named"
    | EmptyIndex           // "empty index"
    | FeeChanged           // "fee changed"
    | NoIdentity           // "no identity"
    | StickyJudgement      // "sticky judgement"
    | JudgementGiven       // "judgement given"
    | InvalidIndex         // "invalid index"
    | InvalidJudgement     // "invalid judgement"
    | InvalidTarget        // "invalid target"
    | InsufficientBalance  // the currency refused to reserve: free balance too low

  class Identity {
    const currency: Currency
    const basicDeposit: nat
    const fieldDeposit: nat
    const subAccountDeposit: nat
    const maximumSubAccounts: u32

    /** `IdentityOf`: the registration of each named account. */
    var identityOf: map<AccountId, Registration>
    /** `SubsOf`: the sub-accounts of each account that has any. */
    var subsOf: map<AccountId, Subs>
    /** `Registrars`: the registrar list; an index into it is a `RegistrarIndex`. */
    var registrars: seq<Option<RegistrarInfo>>

    /** The `SubsOf` value of `a`; an account without an entry reads as no deposit and no sub-accounts. */
    function SubsOf(a: AccountId): Subs
      reads this
    {
      if a in subsOf then subsOf[a] else Subs(0, [])
    }

    /** The deposit `set_identity` asks for `info`: the basic deposit plus one field deposit per additional field (count cast to `u32`). */
    function IdentityDeposit(info: IdentityInfo): (d: nat)
      ensures d >= basicDeposit
      ensures d <= basicDeposit + |info.additional| * fieldDeposit
      ensures |info.additional| < U32_MODULUS ==> d == basicDeposit + |info.additional| * fieldDeposit
    {
      basicDeposit + (|info.additional| % U32_MODULUS) * fieldDeposit
    }

    /** What the pallet holds in reserve for `a`: its registration's total deposit plus its sub-account deposit. */
    ghost function Held(a: AccountId): nat
      reads this
    {
      (if a in identityOf then TotalDeposit(identityOf[a]) else 0) + SubsOf(a).deposit
    }

    /** There is a registrar at `index`. */
    predicate IsRegistrar(index: nat)
      reads this
    {
      index < |registrars| && registrars[index].Some?
    }

    /** There is a registrar at `index` and `who` is its account. */
    predicate IsRegistrarOf(index: nat, who: AccountId)
      reads this
    {
      IsRegistrar(index) && registrars[index].value.account == who
    }

    ghost predicate WellFormed(reg: Registration)
      reads this
    {
      && StrictlySorted(reg.judgements)
      && IndicesBelow(reg.judgements, |registrars|)
      && reg.deposit == IdentityDeposit(reg.info)
      && InfoWellFormed(reg.info)
    }

    /** The storage tables agree with each other and with the configured deposits. */
    ghost predicate StorageValid()
      reads this
    {
      && (forall a | a in identityOf :: WellFormed(identityOf[a]))
      && subsOf.Keys <= identityOf.Keys
      && (forall a | a in subsOf ::
            && 0 < |subsOf[a].accounts| <= maximumSubAccounts
            && subsOf[a].deposit == subAccountDeposit * |subsOf[a].accounts|)
    }

    /** Every account other than `who` has exactly what the pallet holds for it in reserve. */
    ghost predicate ReservesMatchExcept(who: AccountId)
      reads this, currency
    {
      forall a | a != who :: currency.Reserved(a) == Held(a)
    }

    /** The ledger invariant: consistent storage, and every reserve exactly what the pallet holds. */
    ghost predicate Valid()
      reads this, currency
    {
      && StorageValid()
      && forall a :: currency.Reserved(a) == Held(a)
    }

    /** A pallet with empty storage over a currency that has nothing reserved. */
    constructor (currency: Currency, basicDeposit: nat, fieldDeposit: nat, subAccountDeposit: nat, maximumSubAccounts: u32)
      requires currency.reserved == map[]
      ensures Valid()
      ensures this.currency == currency
      ensures this.basicDeposit == basicDeposit && this.fieldDeposit == fieldDeposit
      ensures this.subAccountDeposit == subAccountDeposit && this.maximumSubAccounts == maximumSubAccounts
      ensures identityOf == map[] && subsOf == map[] && registrars == []
    {
      this.currency := currency;
      this.basicDeposit := basicDeposit;
      this.fieldDeposit := fieldDeposit;
      this.subAccountDeposit := subAccountDeposit;
      this.maximumSubAccounts := maximumSubAccounts;
      identityOf := map[];
      subsOf := map[];
      registrars := [];
    }

    /** `add_registrar`: appends a registrar with no fee and no fields; its index is the old list length (cast to `u32`). */
    method AddRegistrar(privileged: bool, account: AccountId) returns (r: Result<RegistrarIndex, Error>)
      requires Valid()
      modifies this
      ensures Valid()
      ensures identityOf == old(identityOf) && subsOf == old(subsOf)
      ensures !privileged ==> r == Err(BadOrigin) && registrars == old(registrars)
      ensures privileged ==> r == Ok(old(|registrars|) % U32_MODULUS)
      ensures privileged ==> registrars == old(registrars) + [Some(RegistrarInfo(account, 0, 0))]
    {
      if !privileged {
        return Err(BadOrigin);
      }
      registrars := registrars + [Some(RegistrarInfo(account, 0, 0))];
      r := Ok((|registrars| - 1) % U32_MODULUS);
      forall a | a in identityOf ensures WellFormed(identityOf[a]) {
        assert old(WellFormed(identityOf[a]));
      }
    }

    /**
     * `set_identity`: registers `info` for `sender`, keeping only the sticky
     * judgements of an existing registration, and moves the deposit to
     * `IdentityDeposit(info)` by reserving or unreserving the difference.
     */
    method SetIdentity(sender: AccountId, info: IdentityInfo) returns (r: Result<(), Error>)
      requires Valid()
      modifies this, currency
      ensures Valid()
      ensures registrars == old(registrars) && subsOf == old(subsOf)
      ensures var oldDeposit := if sender in old(identityOf) then old(identityOf[sender].deposit) else 0;
              var newDeposit := IdentityDeposit(info);
              var kept := if sender in old(identityOf) then RetainSticky(old(identityOf[sender].judgements)) else [];
              && (r.Ok? <==> newDeposit <= oldDeposit + old(currency.Free(sender)))
              && (r.Err? ==> r == Err(InsufficientBalance) && identityOf == old(identityOf)
                             && currency.free == old(currency.free) && currency.reserved == old(currency.reserved))
              && (r.Ok? ==> identityOf == old(identityOf)[sender := Registration(kept, newDeposit, TruncatedInfo(info))]
                            && Adjusted(old(currency.free), currency.free, sender, oldDeposit - newDeposit)
                            && Adjusted(old(currency.reserved), currency.reserved, sender, newDeposit - oldDeposit))
    {
      ghost var before := currency.Reserved(sender);
      assert before == Held(sender);
      var id: Registration;
      if sender in identityOf {
        id := identityOf[sender];
        assert WellFormed(id.(judgements := RetainSticky(id.judgements), info := TruncatedInfo(info), deposit := IdentityDeposit(info)))
            && FeesHeld(RetainSticky(id.judgements)) == FeesHeld(id.judgements) by {
          RetainStickySorted(id.judgements);
          RetainStickyIndicesBelow(id.judgements, |registrars|);
          RetainStickyFees(id.judgements);
        }
        id := id.(judgements := RetainSticky(id.judgements), info := info);
      } else {
        id := Registration([], 0, info);
      }
      var oldDeposit := id.deposit;
      assert before == oldDeposit + FeesHeld(id.judgements) + SubsOf(sender).deposit;
      id := id.(deposit := IdentityDeposit(info));
      if id.deposit > oldDeposit {
        var ok := currency.Reserve(sender, id.deposit - oldDeposit);
        if !ok {
          return Err(InsufficientBalance);
        }
      }
      if oldDeposit > id.deposit {
        var _ := currency.Unreserve(sender, oldDeposit - id.deposit);
      }
      assert currency.Reserved(sender) == TotalDeposit(id) + SubsOf(sender).deposit;
      assert ReservesMatchExcept(sender) by {
        forall a | a != sender ensures currency.Reserved(a) == Held(a) {
          assert old(currency.Reserved(a)) == old(Held(a));
        }
      }
      InsertIdentity(sender, id);
      r := Ok(());
    }

    /**
     * `set_subs`: replaces the sub-accounts of a named `sender`, moving the
     * sub-account deposit to one `SubAccountDeposit` per sub-account; an
     * empty list removes the `SubsOf` entry.
     */
    method SetSubs(sender: AccountId, subs: seq<(AccountId, DataCodec.Data)>) returns (r: Result<(), Error>)
      requires Valid()
      modifies this, currency
      ensures Valid()
      ensures registrars == old(registrars) && identityOf == old(identityOf)
      ensures sender !in identityOf ==> r == Err(NotFound)
      ensures sender in identityOf && |subs| > maximumSubAccounts ==> r == Err(TooManySubs)
      ensures var oldDeposit := old(SubsOf(sender).deposit);
              var newDeposit := subAccountDeposit * |subs|;
              && (r.Ok? <==> sender in identityOf && |subs| <= maximumSubAccounts
                             && newDeposit <= oldDeposit + old(currency.Free(sender)))
              && (sender in identityOf && |subs| <= maximumSubAccounts && r.Err? ==> r == Err(InsufficientBalance))
              && (r.Err? ==> subsOf == old(subsOf)
                             && currency.free == old(currency.free) && currency.reserved == old(currency.reserved))
              && (r.Ok? ==> subsOf == (if subs == [] then old(subsOf) - {sender}
                                       else old(subsOf)[sender := Subs(newDeposit, TruncatedSubs(subs))])
                            && Adjusted(old(currency.free), currency.free, sender, oldDeposit - newDeposit)
                            && Adjusted(old(currency.reserved), currency.reserved, sender, newDeposit - oldDeposit))
    {
      if sender !in identityOf {
        return Err(NotFound);
      }
      if |subs| > maximumSubAccounts {
        return Err(TooManySubs);
      }
      var oldDeposit := SubsOf(sender).deposit;
      var newDeposit := subAccountDeposit * |subs|;
      ghost var registered := TotalDeposit(identityOf[sender]);
      assert currency.Reserved(sender) == registered + oldDeposit;
      if oldDeposit < newDeposit {
        var ok := currency.Reserve(sender, newDeposit - oldDeposit);
        if !ok {
          return Err(InsufficientBalance);
        }
      }
      if oldDeposit > newDeposit {
        var _ := currency.Unreserve(sender, oldDeposit - newDeposit);
      }
      assert ReservesMatchExcept(sender) by {
        forall a | a != sender ensures currency.Reserved(a) == Held(a) {
          assert old(currency.Reserved(a)) == old(Held(a));
        }
      }
      WriteSubs(sender, subs, newDeposit);
      r := Ok(());
    }

    /** `clear_identity`: removes `sender`'s registration and sub-accounts and unreserves everything they held. */
    method ClearIdentity(sender: AccountId) returns (r: Result<(), Error>)
      requires Valid()
      modifies this, currency
      ensures Valid()
      ensures registrars == old(registrars)
      ensures r.Ok? <==> sender in old(identityOf)
      ensures r.Err? ==> r == Err(NotNamed) && identityOf == old(identityOf) && subsOf == old(subsOf)
                         && currency.free == old(currency.free) && currency.reserved == old(currency.reserved)
      ensures r.Ok? ==> identityOf == old(identityOf) - {sender} && subsOf == old(subsOf) - {sender}
      ensures r.Ok? ==>
                var deposit := old(TotalDeposit(identityOf[sender]) + SubsOf(sender).deposit);
                && Adjusted(old(currency.free), currency.free, sender, deposit)
                && Adjusted(old(currency.reserved), currency.reserved, sender, -(deposit as int))
      ensures r.Ok? ==> currency.Reserved(sender) == 0
    {
      if sender !in identityOf {
        return Err(NotNamed);
      }
      var deposit := TotalDeposit(identityOf[sender]) + SubsOf(sender).deposit;
      identityOf := identityOf - {sender};
      subsOf := subsOf - {sender};
      var _ := currency.Unreserve(sender, deposit);
      r := Ok(());
      forall a ensures currency.Reserved(a) == Held(a) {
        if a != sender {
          assert old(currency.Reserved(a)) == old(Held(a));
        }
      }
    }

    /** The judgement `sender` currently has from registrar `regIndex` is sticky. */
    ghost predicate HasStickyJudgement(sender: AccountId, regIndex: RegistrarIndex)
      reads this
      requires sender in identityOf
    {
      var found := Find(identityOf[sender].judgements, regIndex);
      found.Some? && IsSticky(found.value)
    }

    /**
     * `request_judgement`: records a `FeePaid` judgement of registrar
     * `regIndex` for `sender` at the registrar's current fee, and reserves
     * that fee.
     */
    method RequestJudgement(sender: AccountId, regIndex: RegistrarIndex, maxFee: nat) returns (r: Result<(), Error>)
      requires Valid()
      modifies this, currency
      ensures Valid()
      ensures registrars == old(registrars) && subsOf == old(subsOf)
      ensures !IsRegistrar(regIndex) ==> r == Err(EmptyIndex)
      ensures IsRegistrar(regIndex) && maxFee < registrars[regIndex].value.fee ==> r == Err(FeeChanged)
      ensures IsRegistrar(regIndex) && maxFee >= registrars[regIndex].value.fee && sender !in old(identityOf)
              ==> r == Err(NoIdentity)
      ensures (IsRegistrar(regIndex) && maxFee >= registrars[regIndex].value.fee && sender in old(identityOf)
               && old(HasStickyJudgement(sender, regIndex))) ==> r == Err(StickyJudgement)
      ensures (IsRegistrar(regIndex) && maxFee >= registrars[regIndex].value.fee && sender in old(identityOf)
               && !old(HasStickyJudgement(sender, regIndex))
               && registrars[regIndex].value.fee > old(currency.Free(sender))) ==> r == Err(InsufficientBalance)
      ensures r.Ok? <==> IsRegistrar(regIndex) && maxFee >= registrars[regIndex].value.fee
                         && sender in old(identityOf) && !old(HasStickyJudgement(sender, regIndex))
                         && registrars[regIndex].value.fee <= old(currency.Free(sender))
      ensures r.Err? ==> identityOf == old(identityOf)
                         && currency.free == old(currency.free) && currency.reserved == old(currency.reserved)
      ensures r.Ok? ==>
                var fee := registrars[regIndex].value.fee;
                var reg := old(identityOf[sender]);
                && identityOf == old(identityOf)[sender := reg.(judgements := Upsert(reg.judgements, regIndex, FeePaid(fee)))]
                && Adjusted(old(currency.free), currency.free, sender, -(fee as int))
                && Adjusted(old(currency.reserved), currency.reserved, sender, fee)
    {
      if !(regIndex < |registrars| && registrars[regIndex].Some?) {
        return Err(EmptyIndex);
      }
      var registrar := registrars[regIndex].value;
      if maxFee < registrar.fee {
        return Err(FeeChanged);
      }
      if sender !in identityOf {
        return Err(NoIdentity);
      }
      var id := identityOf[sender];
      var js := id.judgements;
      ghost var before := currency.Reserved(sender);
      assert before == id.deposit + FeesHeld(js) + SubsOf(sender).deposit;
      var updated, previous := SearchAndUpsert(js, regIndex, FeePaid(registrar.fee));
      if previous.Some? && IsSticky(previous.value) {
        return Err(StickyJudgement);
      }
      assert WellFormed(id.(judgements := updated))
          && FeesHeld(updated) + HeldFeeOf(previous) == FeesHeld(js) + registrar.fee by {
        UpsertSorted(js, regIndex, FeePaid(registrar.fee));
        UpsertIndicesBelow(js, regIndex, FeePaid(registrar.fee), |registrars|);
        UpsertFees(js, regIndex, FeePaid(registrar.fee));
      }
      id := id.(judgements := updated);
      assert HeldFeeOf(previous) == 0;
      assert TotalDeposit(id) == before - SubsOf(sender).deposit + registrar.fee;
      var ok := currency.Reserve(sender, registrar.fee);
      if !ok {
        return Err(InsufficientBalance);
      }
      assert currency.Reserved(sender) == before + registrar.fee;
      assert ReservesMatchExcept(sender) by {
        forall a | a != sender ensures currency.Reserved(a) == Held(a) {
          assert old(currency.Reserved(a)) == old(Held(a));
        }
      }
      InsertIdentity(sender, id);
      r := Ok(());
    }

    /** `cancel_request`: removes `sender`'s `FeePaid` judgement of registrar `regIndex` and unreserves its fee. */
    method CancelRequest(sender: AccountId, regIndex: RegistrarIndex) returns (r: Result<(), Error>)
      requires Valid()
      modifies this, currency
      ensures Valid()
      ensures registrars == old(registrars) && subsOf == old(subsOf)
      ensures sender !in old(identityOf) ==> r == Err(NoIdentity)
      ensures sender in old(identityOf) && Find(old(identityOf[sender].judgements), regIndex).None?
              ==> r == Err(NotFound)
      ensures (sender in old(identityOf) && Find(old(identityOf[sender].judgements), regIndex).Some?
               && !Find(old(identityOf[sender].judgements), regIndex).value.FeePaid?) ==> r == Err(JudgementGiven)
      ensures r.Ok? <==> sender in old(identityOf) && Find(old(identityOf[sender].judgements), regIndex).Some?
                         && Find(old(identityOf[sender].judgements), regIndex).value.FeePaid?
      ensures r.Err? ==> identityOf == old(identityOf)
                         && currency.free == old(currency.free) && currency.reserved == old(currency.reserved)
      ensures r.Ok? ==>
                var reg := old(identityOf[sender]);
                var fee := Find(reg.judgements, regIndex).value.fee;
                && identityOf == old(identityOf)[sender := reg.(judgements := Remove(reg.judgements, regIndex))]
                && Adjusted(old(currency.free), currency.free, sender, fee)
                && Adjusted(old(currency.reserved), currency.reserved, sender, -(fee as int))
    {
      if sender !in identityOf {
        return Err(NoIdentity);
      }
      var id := identityOf[sender];
      var js := id.judgements;
      var found, pos := BinarySearchByKey(js, regIndex);
      if !found {
        return Err(NotFound);
      }
      FindAt(js, pos);
      RemoveAt(js, pos);
      RemoveSorted(js, regIndex);
      RemoveIndicesBelow(js, regIndex, |registrars|);
      RemoveFees(js, regIndex);
      var removed := js[pos].1;
      id := id.(judgements := js[..pos] + js[pos + 1..]);
      if !removed.FeePaid? {
        return Err(JudgementGiven);
      }
      TotalDepositCovers(sender);
      var _ := currency.Unreserve(sender, removed.fee);
      assert ReservesMatchExcept(sender) by {
        forall a | a != sender ensures currency.Reserved(a) == Held(a) {
          assert old(currency.Reserved(a)) == old(Held(a));
        }
      }
      InsertIdentity(sender, id);
      r := Ok(());
    }

    /** `set_fee`: the registrar at `index`, when `who` is its account, now charges `fee`. */
    method SetFee(who: AccountId, index: RegistrarIndex, fee: nat) returns (r: Result<(), Error>)
      requires Valid()
      modifies this
      ensures Valid()
      ensures identityOf == old(identityOf) && subsOf == old(subsOf)
      ensures r.Ok? <==> old(IsRegistrarOf(index, who))
      ensures r.Err? ==> r == Err(InvalidIndex) && registrars == old(registrars)
      ensures r.Ok? ==> registrars == old(registrars)[index := Some(old(registrars[index].value).(fee := fee))]
    {
      if !IsRegistrarOf(index, who) {
        return Err(InvalidIndex);
      }
      registrars := registrars[index := Some(registrars[index].value.(fee := fee))];
      r := Ok(());
      forall a | a in identityOf ensures WellFormed(identityOf[a]) {
        assert old(WellFormed(identityOf[a]));
      }
    }

    /** `set_fields`: the registrar at `index`, when `who` is its account, now attests `fields`. */
    method SetFields(who: AccountId, index: RegistrarIndex, fields: IdentityFields) returns (r: Result<(), Error>)
      requires Valid()
      modifies this
      ensures Valid()
      ensures identityOf == old(identityOf) && subsOf == old(subsOf)
      ensures r.Ok? <==> old(IsRegistrarOf(index, who))
      ensures r.Err? ==> r == Err(InvalidIndex) && registrars == old(registrars)
      ensures r.Ok? ==> registrars == old(registrars)[index := Some(old(registrars[index].value).(fields := fields))]
    {
      if !IsRegistrarOf(index, who) {
        return Err(InvalidIndex);
      }
      registrars := registrars[index := Some(registrars[index].value.(fields := fields))];
      r := Ok(());
      forall a | a in identityOf ensures WellFormed(identityOf[a]) {
        assert old(WellFormed(identityOf[a]));
      }
    }

    /**
     * `provide_judgement`: the registrar at `regIndex` (whose account must be
     * `sender`) sets its judgement of `target`; a `FeePaid` judgement it
     * replaces pays its fee from `target`'s reserve to `sender`.
     */
    method ProvideJudgement(sender: AccountId, regIndex: RegistrarIndex, target: AccountId, judgement: Judgement)
      returns (r: Result<(), Error>)
      requires Valid()
      modifies this, currency
      ensures Valid()
      ensures registrars == old(registrars) && subsOf == old(subsOf)
      ensures HasDeposit(judgement) ==> r == Err(InvalidJudgement)
      ensures !HasDeposit(judgement) && !IsRegistrarOf(regIndex, sender) ==> r == Err(InvalidIndex)
      ensures !HasDeposit(judgement) && IsRegistrarOf(regIndex, sender) && target !in old(identityOf)
              ==> r == Err(InvalidTarget)
      ensures r.Ok? <==> !HasDeposit(judgement) && IsRegistrarOf(regIndex, sender) && target in old(identityOf)
      ensures r.Err? ==> identityOf == old(identityOf)
                         && currency.free == old(currency.free) && currency.reserved == old(currency.reserved)
      ensures r.Ok? ==>
                var reg := old(identityOf[target]);
                var fee := HeldFeeOf(Find(reg.judgements, regIndex));
                && identityOf == old(identityOf)[target := reg.(judgements := Upsert(reg.judgements, regIndex, judgement))]
                && Adjusted(old(currency.free), currency.free, sender, fee)
                && Adjusted(old(currency.reserved), currency.reserved, target, -(fee as int))
    {
      if HasDeposit(judgement) {
        return Err(InvalidJudgement);
      }
      if !IsRegistrarOf(regIndex, sender) {
        return Err(InvalidIndex);
      }
      if target !in identityOf {
        return Err(InvalidTarget);
      }
      var id := identityOf[target];
      var js := id.judgements;
      ghost var before := currency.Reserved(target);
      assert before == id.deposit + FeesHeld(js) + SubsOf(target).deposit;
      var updated, previous := SearchAndUpsert(js, regIndex, judgement);
      ghost var fee := HeldFeeOf(previous);
      assert WellFormed(id.(judgements := updated)) && FeesHeld(updated) + fee == FeesHeld(js) by {
        UpsertSorted(js, regIndex, judgement);
        UpsertIndicesBelow(js, regIndex, judgement, |registrars|);
        UpsertFees(js, regIndex, judgement);
      }
      if previous.Some? && previous.value.FeePaid? {
        var _ := currency.RepatriateReserved(target, sender, previous.value.fee);
      }
      id := id.(judgements := updated);
      assert currency.Reserved(target) == before - fee;
      assert TotalDeposit(id) == before - fee - SubsOf(target).deposit;
      assert ReservesMatchExcept(target) by {
        forall a | a != target ensures currency.Reserved(a) == Held(a) {
          assert old(currency.Reserved(a)) == old(Held(a));
        }
      }
      InsertIdentity(target, id);
      r := Ok(());
    }

    /** `kill_identity`: removes `target`'s registration and sub-accounts and slashes everything they held. */
    method KillIdentity(privileged: bool, target: AccountId) returns (r: Result<(), Error>)
      requires Valid()
      modifies this, currency
      ensures Valid()
      ensures registrars == old(registrars)
      ensures !privileged ==> r == Err(BadOrigin)
      ensures privileged && target !in old(identityOf) ==> r == Err(NotNamed)
      ensures r.Ok? <==> privileged && target in old(identityOf)
      ensures r.Err? ==> identityOf == old(identityOf) && subsOf == old(subsOf)
                         && currency.free == old(currency.free) && currency.reserved == old(currency.reserved)
      ensures r.Ok? ==> identityOf == old(identityOf) - {target} && subsOf == old(subsOf) - {target}
      ensures r.Ok? ==>
                var deposit := old(TotalDeposit(identityOf[target]) + SubsOf(target).deposit);
                && currency.free == old(currency.free)
                && Adjusted(old(currency.reserved), currency.reserved, target, -(deposit as int))
      ensures r.Ok? ==> currency.Reserved(target) == 0
    {
      if !privileged {
        return Err(BadOrigin);
      }
      if target !in identityOf {
        return Err(NotNamed);
      }
      var deposit := TotalDeposit(identityOf[target]) + SubsOf(target).deposit;
      identityOf := identityOf - {target};
      subsOf := subsOf - {target};
      var _ := currency.SlashReserved(target, deposit);
      r := Ok(());
      forall a ensures currency.Reserved(a) == Held(a) {
        if a != target {
          assert old(currency.Reserved(a)) == old(Held(a));
        }
      }
    }

    /** `IdentityOf::insert`: stores `reg` for `who`, whose reserve already matches it, with its information as the table's encoding keeps it. */
    method InsertIdentity(who: AccountId, reg: Registration)
      requires StorageValid() && WellFormed(reg.(info := TruncatedInfo(reg.info)))
      requires ReservesMatchExcept(who)
      requires currency.Reserved(who) == TotalDeposit(reg) + SubsOf(who).deposit
      modifies this
      ensures Valid()
      ensures identityOf == old(identityOf)[who := reg.(info := TruncatedInfo(reg.info))]
      ensures subsOf == old(subsOf) && registrars == old(registrars)
    {
      identityOf := identityOf[who := reg.(info := TruncatedInfo(reg.info))];
      forall a ensures currency.Reserved(a) == Held(a) {
        if a != who {
          assert old(Held(a)) == Held(a);
        }
      }
    }

    /** The `SubsOf` write of `set_subs`: an empty list removes `who`'s entry, any other is stored with its deposit, names as the table's encoding keeps them. */
    method WriteSubs(who: AccountId, subs: seq<(AccountId, DataCodec.Data)>, deposit: nat)
      requires StorageValid() && who in identityOf
      requires |subs| <= maximumSubAccounts && deposit == subAccountDeposit * |subs|
      requires ReservesMatchExcept(who)
      requires currency.Reserved(who) == TotalDeposit(identityOf[who]) + deposit
      modifies this
      ensures Valid()
      ensures subsOf == if subs == [] then old(subsOf) - {who} else old(subsOf)[who := Subs(deposit, TruncatedSubs(subs))]
      ensures identityOf == old(identityOf) && registrars == old(registrars)
    {
      if subs == [] {
        subsOf := subsOf - {who};
      } else {
        subsOf := subsOf[who := Subs(deposit, TruncatedSubs(subs))];
      }
      forall a ensures currency.Reserved(a) == Held(a) {
        if a != who {
          assert old(Held(a)) == Held(a);
        }
      }
    }

    /** Under the ledger invariant, a named account's reserve covers its registration's total deposit, and so each fee one of its judgements holds. */
    lemma TotalDepositCovers(who: AccountId)
      requires Valid() && who in identityOf
      ensures currency.Reserved(who) >= TotalDeposit(identityOf[who])
      ensures forall i | 0 <= i < |identityOf[who].judgements| ::
                currency.Reserved(who) >= HeldFee(identityOf[who].judgements[i].1)
    {
      var js := identityOf[who].judgements;
      forall i | 0 <= i < |js| ensures currency.Reserved(who) >= HeldFee(js[i].1) {
        FeesHeldCovers(js, i);
      }
    }
  }
}
