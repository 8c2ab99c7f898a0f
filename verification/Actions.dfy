/** The privileged actions and their canonical names. */
module Actions {
  import opened Prelude

  datatype Action =
    | SetSpendWithoutHardware
    | DisableSpendWithoutHardware
    | SetVerificationThreshold
    | SetRecoveryEmail
    | DisableRecoveryEmail
    | SetRecoveryPhone
    | DisableRecoveryPhone
    | SetRecoveryPushNotifications
    | DisableRecoveryPushNotifications
    | AddRecoveryContact
    | RemoveRecoveryContact
    | RemoveRecoveryCustomer
    | AddBeneficiary
    | RemoveBeneficiary
    | RemoveBenefactor
    | CreateSpendingKeyset
    | RotateSpendingKeyset
    | DeleteAccount
    | UpdateDescriptorBackups
    | CreateLostAppRecovery
    | CreateLostHardwareRecovery
    | CancelLostAppRecovery
    | CancelLostHardwareRecovery
    | CancelConflictingRecovery
    | SendRecoveryVerificationCode
    | VerifyRecoveryVerificationCode
    | RotateAppAuthKeys
    | SetDelayNotifyPeriod

  function Name(a: Action): (s: string) {
    match a
    case SetSpendWithoutHardware => "SetSpendWithoutHardware"
    case DisableSpendWithoutHardware => "DisableSpendWithoutHardware"
    case SetVerificationThreshold => "SetVerificationThreshold"
    case SetRecoveryEmail => "SetRecoveryEmail"
    case DisableRecoveryEmail => "DisableRecoveryEmail"
    case SetRecoveryPhone => "SetRecoveryPhone"
    case DisableRecoveryPhone => "DisableRecoveryPhone"
    case SetRecoveryPushNotifications => "SetRecoveryPushNotifications"
    case DisableRecoveryPushNotifications => "DisableRecoveryPushNotifications"
    case AddRecoveryContact => "AddRecoveryContact"
    case RemoveRecoveryContact => "RemoveRecoveryContact"
    case RemoveRecoveryCustomer => "RemoveRecoveryCustomer"
    case AddBeneficiary => "AddBeneficiary"
    case RemoveBeneficiary => "RemoveBeneficiary"
    case RemoveBenefactor => "RemoveBenefactor"
    case CreateSpendingKeyset => "CreateSpendingKeyset"
    case RotateSpendingKeyset => "RotateSpendingKeyset"
    case DeleteAccount => "DeleteAccount"
    case UpdateDescriptorBackups => "UpdateDescriptorBackups"
    case CreateLostAppRecovery => "CreateLostAppRecovery"
    case CreateLostHardwareRecovery => "CreateLostHardwareRecovery"
    case CancelLostAppRecovery => "CancelLostAppRecovery"
    case CancelLostHardwareRecovery => "CancelLostHardwareRecovery"
    case CancelConflictingRecovery => "CancelConflictingRecovery"
    case SendRecoveryVerificationCode => "SendRecoveryVerificationCode"
    case VerifyRecoveryVerificationCode => "VerifyRecoveryVerificationCode"
    case RotateAppAuthKeys => "RotateAppAuthKeys"
    case SetDelayNotifyPeriod => "SetDelayNotifyPeriod"
  }

  const ALL: seq<Action> := [
    SetSpendWithoutHardware, DisableSpendWithoutHardware, SetVerificationThreshold, SetRecoveryEmail,
    DisableRecoveryEmail, SetRecoveryPhone, DisableRecoveryPhone, SetRecoveryPushNotifications,
    DisableRecoveryPushNotifications, AddRecoveryContact, RemoveRecoveryContact, RemoveRecoveryCustomer,
    AddBeneficiary, RemoveBeneficiary, RemoveBenefactor, CreateSpendingKeyset, RotateSpendingKeyset,
    DeleteAccount, UpdateDescriptorBackups, CreateLostAppRecovery, CreateLostHardwareRecovery,
    CancelLostAppRecovery, CancelLostHardwareRecovery, CancelConflictingRecovery,
    SendRecoveryVerificationCode, VerifyRecoveryVerificationCode, RotateAppAuthKeys, SetDelayNotifyPeriod
  ]

  /** The first action of the list with that name. */
  function Find(list: seq<Action>, s: string): (r: Option<Action>)
    ensures r.Some? ==> r.value in list && Name(r.value) == s
  {
    if list == [] then None
    else if Name(list[0]) == s then Some(list[0])
    else Find(list[1..], s)
  }

  /** Reads an action name; the match is exact. */
  function FromStr(s: string): (r: Option<Action>)
    ensures r.Some? ==> Name(r.value) == s
  {
    Find(ALL, s)
  }

  /** The action whose name has this length, second and next-to-last character. */
  function FromMark(length: nat, second: char, nextToLast: char): (a: Action) {
    match length
    case 13 => DeleteAccount
    case 14 => AddBeneficiary
    case 16 =>
      if nextToLast == 'i' then SetRecoveryEmail
      else if nextToLast == 'n' then SetRecoveryPhone
      else RemoveBenefactor
    case 17 =>
      if second == 'e' then RemoveBeneficiary
      else RotateAppAuthKeys
    case 18 => AddRecoveryContact
    case 20 =>
      if nextToLast == 'i' then DisableRecoveryEmail
      else if second == 'i' then DisableRecoveryPhone
      else if second == 'r' then CreateSpendingKeyset
      else if second == 'o' then RotateSpendingKeyset
      else SetDelayNotifyPeriod
    case 21 =>
      if second == 'e' then RemoveRecoveryContact
      else if second == 'r' then CreateLostAppRecovery
      else CancelLostAppRecovery
    case 22 => RemoveRecoveryCustomer
    case 23 =>
      if second == 'e' then SetSpendWithoutHardware
      else UpdateDescriptorBackups
    case 24 => SetVerificationThreshold
    case 25 => CancelConflictingRecovery
    case 26 =>
      if second == 'r' then CreateLostHardwareRecovery
      else CancelLostHardwareRecovery
    case 27 => DisableSpendWithoutHardware
    case 28 =>
      if nextToLast == 'n' then SetRecoveryPushNotifications
      else SendRecoveryVerificationCode
    case 30 => VerifyRecoveryVerificationCode
    case 32 => DisableRecoveryPushNotifications
    case _ => SetSpendWithoutHardware
  }

  /** Three features of a name recover its action, and no name holds a unit separator. */
  predicate Proper(s: string, a: Action) {
    |s| > 1 && FromMark(|s|, s[1], s[|s| - 2]) == a && '\U{1F}' !in s
  }

  // The names are settled two at a time: the solver's cost grows with the literals in one lemma.

  lemma Names0(a: Action)
    requires 0 <= Ordinal(a) <= 1
    ensures Proper(Name(a), a)
  {}

  lemma Names2(a: Action)
    requires 2 <= Ordinal(a) <= 3
    ensures Proper(Name(a), a)
  {}

  lemma Names4(a: Action)
    requires 4 <= Ordinal(a) <= 5
    ensures Proper(Name(a), a)
  {}

  lemma Names6(a: Action)
    requires 6 <= Ordinal(a) <= 7
    ensures Proper(Name(a), a)
  {}

  lemma Names8(a: Action)
    requires 8 <= Ordinal(a) <= 9
    ensures Proper(Name(a), a)
  {}

  lemma Names10(a: Action)
    requires 10 <= Ordinal(a) <= 11
    ensures Proper(Name(a), a)
  {}

  lemma Names12(a: Action)
    requires 12 <= Ordinal(a) <= 13
    ensures Proper(Name(a), a)
  {}

  lemma Names14(a: Action)
    requires 14 <= Ordinal(a) <= 15
    ensures Proper(Name(a), a)
  {}

  lemma Names16(a: Action)
    requires 16 <= Ordinal(a) <= 17
    ensures Proper(Name(a), a)
  {}

  lemma Names18(a: Action)
    requires 18 <= Ordinal(a) <= 19
    ensures Proper(Name(a), a)
  {}

  lemma Names20(a: Action)
    requires 20 <= Ordinal(a) <= 21
    ensures Proper(Name(a), a)
  {}

  lemma Names22(a: Action)
    requires 22 <= Ordinal(a) <= 23
    ensures Proper(Name(a), a)
  {}

  lemma Names24(a: Action)
    requires 24 <= Ordinal(a) <= 25
    ensures Proper(Name(a), a)
  {}

  lemma Names26(a: Action)
    requires 26 <= Ordinal(a) <= 27
    ensures Proper(Name(a), a)
  {}

  lemma NamesAreProper(a: Action)
    ensures Proper(Name(a), a)
  {
    hide Proper, Name;
    match Ordinal(a) / 2
    case 0 => Names0(a);
    case 1 => Names2(a);
    case 2 => Names4(a);
    case 3 => Names6(a);
    case 4 => Names8(a);
    case 5 => Names10(a);
    case 6 => Names12(a);
    case 7 => Names14(a);
    case 8 => Names16(a);
    case 9 => Names18(a);
    case 10 => Names20(a);
    case 11 => Names22(a);
    case 12 => Names24(a);
    case _ => Names26(a);
  }

  lemma SameMark(s: string, a: Action, b: Action)
    requires Proper(s, a) && Proper(s, b)
    ensures a == b
  {
  }

  lemma NamesAreDistinct(a: Action, b: Action)
    requires Name(a) == Name(b)
    ensures a == b
  {
    NamesAreProper(a);
    NamesAreProper(b);
    SameMark(Name(a), a, b);
  }

  lemma EveryActionIsListed(a: Action)
    ensures a in ALL
  {
    assert a == ALL[Ordinal(a)];
  }

  function Ordinal(a: Action): (n: nat)
    ensures n < |ALL|
  {
    match a
    case SetSpendWithoutHardware => 0
    case DisableSpendWithoutHardware => 1
    case SetVerificationThreshold => 2
    case SetRecoveryEmail => 3
    case DisableRecoveryEmail => 4
    case SetRecoveryPhone => 5
    case DisableRecoveryPhone => 6
    case SetRecoveryPushNotifications => 7
    case DisableRecoveryPushNotifications => 8
    case AddRecoveryContact => 9
    case RemoveRecoveryContact => 10
    case RemoveRecoveryCustomer => 11
    case AddBeneficiary => 12
    case RemoveBeneficiary => 13
    case RemoveBenefactor => 14
    case CreateSpendingKeyset => 15
    case RotateSpendingKeyset => 16
    case DeleteAccount => 17
    case UpdateDescriptorBackups => 18
    case CreateLostAppRecovery => 19
    case CreateLostHardwareRecovery => 20
    case CancelLostAppRecovery => 21
    case CancelLostHardwareRecovery => 22
    case CancelConflictingRecovery => 23
    case SendRecoveryVerificationCode => 24
    case VerifyRecoveryVerificationCode => 25
    case RotateAppAuthKeys => 26
    case SetDelayNotifyPeriod => 27
  }

  lemma {:induction false} FindInverts(list: seq<Action>, a: Action)
    requires a in list
    ensures Find(list, Name(a)) == Some(a)
  {
    if Name(list[0]) == Name(a) {
      NamesAreDistinct(list[0], a);
    } else {
      FindInverts(list[1..], a);
    }
  }

  /** Reading a name back gives the action it names. */
  lemma FromStrInverts(a: Action)
    ensures FromStr(Name(a)) == Some(a)
  {
    EveryActionIsListed(a);
    FindInverts(ALL, a);
  }
}
