/** The concrete scenarios of the validator's test suite, stated over the
    model: the valid-user fixture and its variations. */
module UserValidationServiceTests {
  import opened Models
  import opened UserValidationService

  /** The fixture: a complete record whose pointer size is 0. */
  function ValidUser(): (u: User)
    ensures IsUserPictureSet(u) && IsValidUserData(u)
    ensures u.name == Some("testName")
  {
    User(Some("testName"), Some("someProfileImage"), UserSettings(Some(1), Some(0), Some(1), Some(1)))
  }

  /** The fixture with the default picture gets the picture response. */
  lemma DefaultPictureScenario(userAlreadyExists: bool)
    ensures Validate(ValidUser().(profileImg := Some(DefaultPicture)), userAlreadyExists)
      == ValidationResponse(false, Some("SELECT_PICTURE_VALIDATION_MESSAGE"))
  {
  }

  /** The fixture without a profile image is not valid data. */
  lemma UndefinedImageScenario()
    ensures !IsValidUserData(ValidUser().(profileImg := None))
  {
  }

  /** The fixture is sent to the lookup under its own name; a free name is accepted
      without a message, a taken one is rejected with the existing-username code. */
  lemma ValidUserScenario()
    ensures IsValid(ValidUser()) == Lookup(Some("testName"))
    ensures Validate(ValidUser(), false) == ValidationResponse(true, None)
    ensures Validate(ValidUser(), true)
      == ValidationResponse(false, Some("EXISTING_USERNAME_VALIDATION_MESSAGE"))
  {
  }
}
