/**
 * The pallet's unit tests, replayed against the model: the mock runtime's
 * configuration (deposits of 10, at most two sub-accounts), its genesis
 * balances, and each test's calls in order. Each scenario returns what its
 * test observes and its postcondition states the value the test expects,
 * so the contracts of the dispatchables alone must pin those values down.
 */
module IdentityScenarios {
  import opened Wrappers
  import opened Judgements
  import opened Balances
  import opened IdentityPallet
  import DataCodec

  /** Genesis balances of the mock runtime. */
  function Genesis(): map<AccountId, nat> {
    map[1 := 10, 2 := 10, 3 := 10, 10 := 100, 20 := 100, 30 := 100]
  }

  /** Text as the byte blob a `Raw` field holds (every character used here is ASCII). */
  function Ascii(s: string): seq<DataCodec.byte> {
    seq(|s|, i requires 0 <= i < |s| => s[i] as int % 0x100)
  }

  /** The field-less information with no data. */
  function Blank(): IdentityInfo {
    IdentityInfo([], DataCodec.None, DataCodec.None, DataCodec.None, DataCodec.None, DataCodec.None, None, DataCodec.None)
  }

  /** The information of account 10 that most tests register. */
  function Ten(): (info: IdentityInfo)
    ensures info.additional == [] && info.email.None? && info.image.None?
    ensures info.web.None? && info.riot.None?
    ensures DataCodec.WellFormed(info.display) && DataCodec.WellFormed(info.legal)
  {
    Blank().(display := DataCodec.Raw(Ascii("ten")), legal := DataCodec.Raw(Ascii("The Right Ordinal Ten, Esq.")))
  }

  /** A pallet configured as the mock runtime, over fresh genesis balances. */
  method NewTestExt() returns (pallet: Identity)
    ensures pallet.Valid() && fresh(pallet) && fresh(pallet.currency)
    ensures pallet.currency.free == Genesis()
    ensures pallet.basicDeposit == 10 && pallet.fieldDeposit == 10
    ensures pallet.subAccountDeposit == 10 && pallet.maximumSubAccounts == 2
    ensures pallet.identityOf == map[] && pallet.subsOf == map[] && pallet.registrars == []
  {
    var currency := new Currency(Genesis());
    pallet := new Identity(currency, 10, 10, 10, 2);
  }

  /** The opening most tests share: registrar 3 is added and charges 10, then account 10 registers `Ten()`. */
  method RegisteredTen() returns (p: Identity)
    ensures p.Valid() && fresh(p) && fresh(p.currency)
    ensures p.basicDeposit == 10 && p.fieldDeposit == 10
    ensures p.subAccountDeposit == 10 && p.maximumSubAccounts == 2
    ensures p.registrars == [Some(RegistrarInfo(3, 10, 0))]
    ensures p.identityOf == map[10 := IdentityPallet.Registration([], 10, Ten())] && p.subsOf == map[]
    ensures p.currency.Free(3) == 10 && p.currency.Free(10) == 90
  {
    p := NewTestExt();
    var r0 := p.AddRegistrar(true, 3);
    var r1 := p.SetFee(3, 0, 10);
    var r2 := p.SetIdentity(10, Ten());
  }

  /** `adding_registrar_should_work`: a registrar sets its fee and fields. */
  method AddingRegistrar() returns (registrars: seq<Option<RegistrarInfo>>)
    ensures registrars == [Some(RegistrarInfo(3, 10, 3))]
  {
    var p := NewTestExt();
    var r0 := p.AddRegistrar(true, 3);
    var r1 := p.SetFee(3, 0, 10);
    var r2 := p.SetFields(3, 0, 1 | 2);
    registrars := p.registrars;
  }

  /** `registration_should_work`: registering reserves 10, clearing returns it, clearing twice fails. */
  method RegisterAndClear() returns (info: IdentityInfo, freeSet: nat, freeCleared: nat, again: Result<(), Error>)
    ensures info == Ten() && freeSet == 90 && freeCleared == 100 && again == Err(NotNamed)
  {
    var p := RegisteredTen();
    info := p.identityOf[10].info;
    freeSet := p.currency.Free(10);
    var r0 := p.ClearIdentity(10);
    freeCleared := p.currency.Free(10);
    again := p.ClearIdentity(10);
  }

  /** `uninvited_judgement_should_work`: a registrar may judge an identity that asked for nothing. */
  method UninvitedJudgement() returns (
    noRegistrar: Result<(), Error>, noTarget: Result<(), Error>, notRegistrar: Result<(), Error>,
    feePaid: Result<(), Error>, judgements: seq<Entry>)
    ensures noRegistrar == Err(InvalidIndex) && noTarget == Err(InvalidTarget)
    ensures notRegistrar == Err(InvalidIndex) && feePaid == Err(InvalidJudgement)
    ensures judgements == [(0, Reasonable)]
  {
    var p := NewTestExt();
    noRegistrar := p.ProvideJudgement(3, 0, 10, Reasonable);
    var r0 := p.AddRegistrar(true, 3);
    noTarget := p.ProvideJudgement(3, 0, 10, Reasonable);
    var r1 := p.SetIdentity(10, Ten());
    notRegistrar, feePaid, judgements := JudgeUninvited(p);
  }

  /** The rest of `uninvited_judgement_should_work`, from account 10 registered with registrar 3 in place. */
  method JudgeUninvited(p: Identity) returns (notRegistrar: Result<(), Error>, feePaid: Result<(), Error>, judgements: seq<Entry>)
    requires p.Valid() && p.registrars == [Some(RegistrarInfo(3, 0, 0))]
    requires 10 in p.identityOf && p.identityOf[10].judgements == []
    modifies p, p.currency
    ensures notRegistrar == Err(InvalidIndex) && feePaid == Err(InvalidJudgement)
    ensures judgements == [(0, Reasonable)]
  {
    notRegistrar := p.ProvideJudgement(10, 0, 10, Reasonable);
    feePaid := p.ProvideJudgement(3, 0, 10, FeePaid(1));
    var r0 := p.ProvideJudgement(3, 0, 10, Reasonable);
    judgements := p.identityOf[10].judgements;
  }

  /** `clearing_judgement_should_work`: clearing a judged identity removes it. */
  method ClearingJudgement() returns (
    added: Result<RegistrarIndex, Error>, registered: Result<(), Error>, judged: Result<(), Error>,
    judgements: seq<Entry>, cleared: Result<(), Error>, named: bool)
    ensures added.Ok? && registered.Ok? && judged.Ok? && cleared.Ok?
    ensures judgements == [(0, Reasonable)]
    ensures !named
  {
    var p := NewTestExt();
    added := p.AddRegistrar(true, 3);
    registered := p.SetIdentity(10, Ten());
    judged := p.ProvideJudgement(3, 0, 10, Reasonable);
    judgements := p.identityOf[10].judgements;
    cleared := p.ClearIdentity(10);
    named := 10 in p.identityOf;
  }

  /** `killing_slashing_should_work`: only the privileged origin kills, and the deposit is lost. */
  method KillingSlashing() returns (unprivileged: Result<(), Error>, named: bool, free: nat, again: Result<(), Error>)
    ensures unprivileged == Err(BadOrigin) && !named && free == 90 && again == Err(NotNamed)
  {
    var p := NewTestExt();
    var r0 := p.SetIdentity(10, Ten());
    unprivileged := p.KillIdentity(false, 10);
    var r1 := p.KillIdentity(true, 10);
    named := 10 in p.identityOf;
    free := p.currency.Free(10);
    again := p.KillIdentity(true, 10);
  }

  /** `setting_subaccounts_should_work`: 10 per sub-account, returned when cleared, at most two. */
  method SettingSubaccounts() returns (
    unnamed: Result<(), Error>, freeOne: nat, subsOne: Subs, freeNone: nat, subsNone: Subs, tooMany: Result<(), Error>)
    ensures unnamed == Err(NotFound)
    ensures freeOne == 80 && subsOne == Subs(10, [(20, DataCodec.Raw([40]))])
    ensures freeNone == 90 && subsNone == Subs(0, [])
    ensures tooMany == Err(TooManySubs)
  {
    var p := NewTestExt();
    var subs := [(20, DataCodec.Raw([40]))];
    unnamed := p.SetSubs(10, subs);
    var r0 := p.SetIdentity(10, Ten());
    var r1 := p.SetSubs(10, subs);
    freeOne, subsOne := p.currency.Free(10), p.SubsOf(10);
    var r2 := p.SetSubs(10, []);
    freeNone, subsNone := p.currency.Free(10), p.SubsOf(10);
    subs := subs + [(30, DataCodec.Raw([41])), (40, DataCodec.Raw([42]))];
    tooMany := p.SetSubs(10, subs);
  }

  /** `cancelling_requested_judgement_should_work`: a pending request is cancelled and its fee returned. */
  method CancellingRequestedJudgement() returns (
    added: Result<RegistrarIndex, Error>, feeSet: Result<(), Error>, unnamed: Result<(), Error>, registered: Result<(), Error>,
    requested: Result<(), Error>, cancelled: Result<(), Error>, free: nat, nothing: Result<(), Error>,
    judged: Result<(), Error>, given: Result<(), Error>)
    ensures added.Ok? && feeSet.Ok? && registered.Ok?
    ensures unnamed == Err(NoIdentity)
    ensures requested.Ok? && cancelled.Ok? && free == 90 && nothing == Err(NotFound)
    ensures judged.Ok? && given == Err(JudgementGiven)
  {
    var p := NewTestExt();
    added := p.AddRegistrar(true, 3);
    feeSet := p.SetFee(3, 0, 10);
    unnamed := p.CancelRequest(10, 0);
    registered := p.SetIdentity(10, Ten());
    requested, cancelled, free, nothing, judged, given := CancelAfterRequest(p);
  }

  /** The rest of `cancelling_requested_judgement_should_work`, from account 10 freshly registered. */
  method CancelAfterRequest(p: Identity) returns (
    requested: Result<(), Error>, cancelled: Result<(), Error>, free: nat, nothing: Result<(), Error>,
    judged: Result<(), Error>, given: Result<(), Error>)
    requires p.Valid()
    requires p.registrars == [Some(RegistrarInfo(3, 10, 0))]
    requires 10 in p.identityOf && p.identityOf[10].judgements == [] && p.currency.Free(10) == 90
    modifies p, p.currency
    ensures requested.Ok? && cancelled.Ok? && free == 90 && nothing == Err(NotFound)
    ensures judged.Ok? && given == Err(JudgementGiven)
  {
    requested := p.RequestJudgement(10, 0, 10);
    cancelled := p.CancelRequest(10, 0);
    free := p.currency.Free(10);
    nothing := p.CancelRequest(10, 0);
    judged := p.ProvideJudgement(3, 0, 10, Reasonable);
    given := p.CancelRequest(10, 0);
  }

  /** `requesting_judgement_should_work`: fees, sticky judgements and a second registrar. */
  method RequestingJudgement() returns (
    changed: Result<(), Error>, freeRequested: nat, paid: Result<(), Error>, freeRegistrar: nat,
    erroneous: Result<(), Error>, second: Result<(), Error>, reduced: Result<(), Error>)
    ensures changed == Err(FeeChanged) && freeRequested == 80 && paid == Err(StickyJudgement)
    ensures freeRegistrar == 20 && erroneous == Err(StickyJudgement)
    ensures second.Ok? && reduced.Ok?
  {
    var p := RegisteredTen();
    changed, freeRequested, paid, freeRegistrar := RequestThenJudgeErroneous(p);
    erroneous, second := RequestAfterErroneous(p);
    reduced := RequestAfterReduced(p);
  }

  /** First half of `requesting_judgement_should_work`: a request at the fee, then an `Erroneous` judgement. */
  method RequestThenJudgeErroneous(p: Identity)
    returns (changed: Result<(), Error>, freeRequested: nat, paid: Result<(), Error>, freeRegistrar: nat)
    requires p.Valid()
    requires p.registrars == [Some(RegistrarInfo(3, 10, 0))]
    requires 10 in p.identityOf && p.identityOf[10].judgements == []
    requires p.currency.Free(3) == 10 && p.currency.Free(10) == 90
    modifies p, p.currency
    ensures changed == Err(FeeChanged) && freeRequested == 80 && paid == Err(StickyJudgement) && freeRegistrar == 20
    ensures p.Valid() && p.registrars == [Some(RegistrarInfo(3, 10, 0))]
    ensures 10 in p.identityOf && p.identityOf[10].judgements == [(0, Erroneous)] && p.currency.Free(10) == 80
  {
    changed := p.RequestJudgement(10, 0, 9);
    var r0 := p.RequestJudgement(10, 0, 10);
    freeRequested := p.currency.Free(10);
    paid := p.RequestJudgement(10, 0, 10);
    var r1 := p.ProvideJudgement(3, 0, 10, Erroneous);
    freeRegistrar := p.currency.Free(3);
  }

  /** Middle of `requesting_judgement_should_work`: `Erroneous` stays, another registrar is still open. */
  method RequestAfterErroneous(p: Identity) returns (erroneous: Result<(), Error>, second: Result<(), Error>)
    requires p.Valid()
    requires p.registrars == [Some(RegistrarInfo(3, 10, 0))]
    requires 10 in p.identityOf && p.identityOf[10].judgements == [(0, Erroneous)] && p.currency.Free(10) == 80
    modifies p, p.currency
    ensures erroneous == Err(StickyJudgement) && second.Ok?
    ensures p.Valid() && p.registrars == [Some(RegistrarInfo(3, 10, 0)), Some(RegistrarInfo(4, 0, 0))]
    ensures 10 in p.identityOf && p.identityOf[10].judgements == [(0, Erroneous), (1, FeePaid(0))]
    ensures p.currency.Free(10) == 80
  {
    erroneous := p.RequestJudgement(10, 0, 10);
    var r0 := p.AddRegistrar(true, 4);
    assert Find(p.identityOf[10].judgements, 1) == None;
    second := p.RequestJudgement(10, 1, 10);
  }

  /** End of `requesting_judgement_should_work`: once registrar 0 lowers its judgement, it can be asked again. */
  method RequestAfterReduced(p: Identity) returns (reduced: Result<(), Error>)
    requires p.Valid() && p.registrars == [Some(RegistrarInfo(3, 10, 0)), Some(RegistrarInfo(4, 0, 0))]
    requires 10 in p.identityOf && p.identityOf[10].judgements == [(0, Erroneous), (1, FeePaid(0))]
    requires p.currency.Free(10) == 80
    modifies p, p.currency
    ensures reduced.Ok?
  {
    var r0 := p.ProvideJudgement(3, 0, 10, OutOfDate);
    assert Find(p.identityOf[10].judgements, 0) == Some(OutOfDate);
    reduced := p.RequestJudgement(10, 0, 10);
  }

  /** `field_deposit_should_work`: two additional fields cost 10 each on top of the basic 10. */
  method FieldDeposit() returns (free: nat)
    ensures free == 70
  {
    var p := NewTestExt();
    var r0 := p.AddRegistrar(true, 3);
    var r1 := p.SetFee(3, 0, 10);
    var info := Blank().(additional := [
      (DataCodec.Raw(Ascii("number")), DataCodec.Raw([10, 0, 0, 0])),
      (DataCodec.Raw(Ascii("text")), DataCodec.Raw(Ascii("10")))]);
    var r2 := p.SetIdentity(10, info);
    free := p.currency.Free(10);
  }
}
