/** The registration validator: an ordered, short-circuiting cascade of a
    picture check, a required-fields check and a remote "does this name
    already exist?" lookup. The lookup is not performed here: the cascade
    either finishes with a response or asks for the lookup of one name, and
    the lookup's boolean answer is an input of `Validate`. */
module UserValidationService {
  import opened Models

  /** The result of the local part of the cascade: a finished response, or
      the request to look up exactly this name remotely. */
  datatype Step = Done(response: ValidationResponse) | Lookup(name: Option<string>)

  /** A picture was chosen: the profile image is not the default sentinel.
      An absent or empty image is taken to be "set" here and is then caught
      by the data check. */
  predicate IsUserPictureSet(user: User) {
    user.profileImg != Some(DefaultPicture)
  }

  /** A setting is present when it is defined, whatever its value (0 included). */
  predicate IsPresent(setting: Option<int>) {
    setting.Some?
  }

  /** A string field is filled in when it is defined and not empty. */
  predicate IsFilled(field: Option<string>) {
    field.Some? && field.value != ""
  }

  /** All required fields of the record are present. */
  predicate IsValidUserData(user: User) {
    && IsFilled(user.name)
    && IsFilled(user.profileImg)
    && IsPresent(user.userSettings.pointerType)
    && IsPresent(user.userSettings.pointerSize)
    && IsPresent(user.userSettings.pointerColor)
    && IsPresent(user.userSettings.backgroundColor)
  }

  /** The response for "no picture chosen". */
  function InvalidUserPictureResponse(): (r: ValidationResponse)
    ensures !r.isValid
    ensures r.message == Some(SelectPictureMessage)
  {
    ValidationResponse(false, Some(SelectPictureMessage))
  }

  /** The response for "a required field is missing". */
  function InvalidUserDataResponse(): (r: ValidationResponse)
    ensures !r.isValid
    ensures r.message == Some(RequiredFieldsMessage)
  {
    ValidationResponse(false, Some(RequiredFieldsMessage))
  }

  /** Maps the lookup's answer ("the name is already registered") to a
      response: accepted with no message when the name is free, rejected
      with the existing-username message when it is taken. */
  function ExistingUserResponse(userAlreadyExists: bool): (r: ValidationResponse)
    ensures r.isValid == !userAlreadyExists
    ensures r.message.Some? <==> userAlreadyExists
    ensures userAlreadyExists ==> r.message == Some(ExistingUsernameMessage)
  {
    if userAlreadyExists then ValidationResponse(false, Some(ExistingUsernameMessage))
    else ValidationResponse(true, None)
  }

  /** The local cascade: the picture check first, then the data check,
      and only when both pass a lookup of the user's own name. */
  function IsValid(user: User): (s: Step)
    ensures s.Lookup? <==> IsUserPictureSet(user) && IsValidUserData(user)
    ensures s.Lookup? ==> s.name == user.name && s.name.Some? && s.name.value != ""
    ensures !IsUserPictureSet(user) ==> s == Done(InvalidUserPictureResponse())
    ensures IsUserPictureSet(user) && !IsValidUserData(user) ==> s == Done(InvalidUserDataResponse())
  {
    if !IsUserPictureSet(user) then Done(InvalidUserPictureResponse())
    else if !IsValidUserData(user) then Done(InvalidUserDataResponse())
    else Lookup(user.name)
  }

  /** Completes a step with the lookup's answer; a finished step ignores it. */
  function Resolve(s: Step, userAlreadyExists: bool): ValidationResponse {
    match s
    case Done(response) => response
    case Lookup(_) => ExistingUserResponse(userAlreadyExists)
  }

  /** The whole validation of one record, given what the lookup of its name
      answers. Accepted exactly when both local checks pass and the name is
      free; a reason code is present exactly when the record is rejected. */
  function Validate(user: User, userAlreadyExists: bool): (r: ValidationResponse)
    ensures r.isValid <==> IsUserPictureSet(user) && IsValidUserData(user) && !userAlreadyExists
    ensures r.message.Some? <==> !r.isValid
    ensures !r.isValid ==>
      r.message.value in {SelectPictureMessage, RequiredFieldsMessage, ExistingUsernameMessage}
  {
    Resolve(IsValid(user), userAlreadyExists)
  }

  // ----- The cascade as an ordered list of checks ---------------------------

  /** One local check of the cascade. */
  datatype Check = PictureCheck | DataCheck

  /** The local checks in the order the validator applies them. */
  const Checks: seq<Check> := [PictureCheck, DataCheck]

  predicate Passes(c: Check, user: User) {
    match c
    case PictureCheck => IsUserPictureSet(user)
    case DataCheck => IsValidUserData(user)
  }

  function Rejection(c: Check): ValidationResponse {
    match c
    case PictureCheck => InvalidUserPictureResponse()
    case DataCheck => InvalidUserDataResponse()
  }

  /** The index of the first check that fails, if any: every earlier check passes. */
  function FirstFailure(checks: seq<Check>, user: User): (r: Option<nat>)
    ensures r.Some? ==> r.value < |checks| && !Passes(checks[r.value], user)
    ensures r.Some? ==> forall j :: 0 <= j < r.value ==> Passes(checks[j], user)
    ensures r.None? <==> forall j :: 0 <= j < |checks| ==> Passes(checks[j], user)
    decreases |checks|
  {
    if checks == [] then None
    else if !Passes(checks[0], user) then Some(0)
    else
      match FirstFailure(checks[1..], user)
      case None => None
      case Some(k) => Some(k + 1)
  }

  /** Evaluates a list of checks with short-circuit on the first failure. */
  function RunChecks(checks: seq<Check>, user: User): Step {
    match FirstFailure(checks, user)
    case Some(k) => Done(Rejection(checks[k]))
    case None => Lookup(user.name)
  }

  /** The validator's cascade is the first-failure evaluation of its ordered
      check list. */
  lemma IsValidIsFirstFailure(user: User)
    ensures IsValid(user) == RunChecks(Checks, user)
  {
  }

  // ----- Properties of the cascade ------------------------------------------

  /** Without a picture the picture response wins, even when the data check
      would fail too, whatever the lookup would answer. */
  lemma NoPictureGivesPictureResponse(user: User, userAlreadyExists: bool)
    requires !IsUserPictureSet(user)
    ensures Validate(user, userAlreadyExists) == InvalidUserPictureResponse()
  {
  }

  /** With a picture but missing data the required-fields response wins,
      whatever the lookup would answer. */
  lemma MissingDataGivesDataResponse(user: User, userAlreadyExists: bool)
    requires IsUserPictureSet(user) && !IsValidUserData(user)
    ensures Validate(user, userAlreadyExists) == InvalidUserDataResponse()
  {
  }

  /** When both local checks pass, the existence check's answer decides. */
  lemma ValidDataDelegatesToLookup(user: User, userAlreadyExists: bool)
    requires IsUserPictureSet(user) && IsValidUserData(user)
    ensures Validate(user, userAlreadyExists) == ExistingUserResponse(userAlreadyExists)
  {
  }

  /** The lookup's answer matters exactly when the cascade asks for it: the
      local rejections never depend on the remote lookup. */
  lemma LookupMattersOnlyWhenAsked(user: User)
    ensures Validate(user, true) != Validate(user, false) <==> IsValid(user).Lookup?
  {
  }

  /** A present setting counts whatever its value: presence is not truthiness. */
  lemma ZeroSettingIsPresent(user: User, pointerType: int, pointerSize: int, pointerColor: int, backgroundColor: int)
    requires IsFilled(user.name) && IsFilled(user.profileImg)
    requires user.userSettings
      == UserSettings(Some(pointerType), Some(pointerSize), Some(pointerColor), Some(backgroundColor))
    ensures IsValidUserData(user)
  {
  }

  /** An absent profile image makes the data invalid; with the picture check
      as modelled, such a record gets the required-fields response. */
  lemma AbsentImageIsInvalidData(user: User)
    requires user.profileImg == None
    ensures !IsValidUserData(user)
    ensures IsUserPictureSet(user)
    ensures IsValid(user) == Done(InvalidUserDataResponse())
  {
  }
}
