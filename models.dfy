/** The values the registration validator works on: the candidate user record
    and the validation response handed back to the registration form. */
module Models {

  /** A value that may be absent (an `undefined` field of the record). */
  datatype Option<+T> = None | Some(value: T)

  /** The four display settings of a user; each is a small enumerated integer
      that may be absent. A value of 0 is a present setting. */
  datatype UserSettings = UserSettings(
    pointerType: Option<int>,
    pointerSize: Option<int>,
    pointerColor: Option<int>,
    backgroundColor: Option<int>)

  /** The candidate user record submitted by the registration form. */
  datatype User = User(
    name: Option<string>,
    profileImg: Option<string>,
    userSettings: UserSettings)

  /** Accept/reject decision with an optional reason code. */
  datatype ValidationResponse = ValidationResponse(isValid: bool, message: Option<string>)

  /** The sentinel path meaning "no profile picture chosen". */
  const DefaultPicture: string := "./assets/images/avatars/default.jpg"

  const SelectPictureMessage: string := "SELECT_PICTURE_VALIDATION_MESSAGE"
  const RequiredFieldsMessage: string := "REQUIRED_FIELDS_VALIDATION_MESSAGE"
  const ExistingUsernameMessage: string := "EXISTING_USERNAME_VALIDATION_MESSAGE"
}
