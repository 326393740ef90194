# User-registration validator

A Dafny model of `UserValidationService`, the registration validator of a
browser-based game application. Before a new user is accepted, the validator
runs three checks in order, and the first one that fails decides:

1. **Picture check.** Was a profile picture chosen? The profile image must not
   be the sentinel `./assets/images/avatars/default.jpg`. If it is, the answer
   is `ValidationResponse(false, 'SELECT_PICTURE_VALIDATION_MESSAGE')`.
2. **Data check.** Is every required field present? That means a non-empty
   name, a non-empty profile image and all four settings (`pointerType`,
   `pointerSize`, `pointerColor`, `backgroundColor`). If not, the answer is
   `ValidationResponse(false, 'REQUIRED_FIELDS_VALIDATION_MESSAGE')`.
3. **Existence check.** Ask a remote lookup whether the user's name is
   already registered. A free name gives `ValidationResponse(true)` with no
   message. A taken name gives
   `ValidationResponse(false, 'EXISTING_USERNAME_VALIDATION_MESSAGE')`.

Files:

- `models.dfy` (module `Models`): the `User` record with its `UserSettings`,
  and `ValidationResponse`. Fields the source may leave `undefined` are
  `Option`s. The module also holds the sentinel path and the three message
  codes.
- `user_validation_service.dfy` (module `UserValidationService`):
  - the two predicates `IsUserPictureSet` and `IsValidUserData`;
  - the three response producers;
  - the local cascade `IsValid`. It returns either a finished response
    (`Done`) or a request to look up exactly the user's name (`Lookup`);
  - `Validate`, which completes that step with the lookup's answer;
  - a second, independent definition of the cascade as an ordered list of
    checks evaluated until the first failure (`FirstFailure`, `RunChecks`),
    with a lemma proving that both definitions agree.
- `user_validation_service_tests.dfy` (module `UserValidationServiceTests`):
  the test suite's valid-user fixture and its concrete scenarios.

The model is rebuilt from the validator's test suite,
`UserValidationService.spec.ts`; the validator's implementation file is not
part of this model. Each test's expectation appears as a contract or a lemma.
Where the tests leave a case open, the model follows the cascade's stated
rules, and the choices below are assumptions.

`IsValidUserData` checks that fields are present, not that they are truthy.
A name or image counts as missing when it is absent or empty.

The tests fix `IsValidUserData` on two records only: the fixture, which is
valid, and the fixture with an undefined image, which is not. The tests also
stub `isUserPictureSet` wherever `isValid` calls it. So these choices are
assumptions:

- An absent or empty name is invalid data, and so is an empty image. These
  clauses follow the required-fields rule; no test checks them.
- Every setting counts when present, whatever its value. The fixture tests
  this only for `pointerSize = 0`; `pointerType`, `pointerColor` and
  `backgroundColor` are 1 in the fixture and follow the same rule.
- The default-picture sentinel is not part of `IsValidUserData`. The picture
  check, which runs first, handles it. No test calls `isValidUserData` on the
  default path.
- `IsUserPictureSet` is assumed to compare the image with the sentinel only.
  A record with no profile image is then "set": it passes the picture check
  and fails the data check.

An accepted result could carry an informational code. The tests at
`src/app/shared/services/UserValidationService.spec.ts:145-164` expect
`new ValidationResponse(true)` with no message. The model follows them: a
message is present exactly when the record is rejected.

`Resolve` is a helper of `Validate`: it completes the local step with the
lookup's answer, and `Validate`'s contract states the result.

## Model

| member | source | states |
|---|---|---|
| UserValidationService.IsUserPictureSet | src/app/shared/services/UserValidationService.spec.ts:49-62 | a picture is set exactly when profileImg is not Some(DefaultPicture) |
| UserValidationService.IsValidUserData | src/app/shared/services/UserValidationService.spec.ts:94-117 | name and image present and non-empty, all four settings defined, 0 included |
| UserValidationService.InvalidUserPictureResponse | src/app/shared/services/UserValidationService.spec.ts:119-130 | the picture response is a rejection carrying SELECT_PICTURE_VALIDATION_MESSAGE |
| UserValidationService.InvalidUserDataResponse | src/app/shared/services/UserValidationService.spec.ts:132-143 | the data response is a rejection carrying REQUIRED_FIELDS_VALIDATION_MESSAGE |
| UserValidationService.ExistingUserResponse | src/app/shared/services/UserValidationService.spec.ts:145-185 | accepted is the negation of "name exists"; a message is present exactly when the name exists, and then it is EXISTING_USERNAME_VALIDATION_MESSAGE |
| UserValidationService.IsValid | src/app/shared/services/UserValidationService.spec.ts:49-92 | without a picture the result is the picture response, with no lookup; with a picture but invalid data it is the required-fields response, with no lookup; a lookup is requested exactly when both checks pass, and then for exactly `user.name`, which is present and non-empty |
| UserValidationService.Validate | src/app/shared/services/UserValidationService.spec.ts:79-185 | a record is accepted exactly when the picture is set, the data is valid and the name does not exist; a message is present exactly when it is rejected, and it is one of the three codes |
| UserValidationService.FirstFailure | src/app/shared/services/UserValidationService.spec.ts:49-92 | returns the index of a failing check with every earlier check passing, or nothing exactly when all checks pass |
| UserValidationService.IsValidIsFirstFailure | src/app/shared/services/UserValidationService.spec.ts:49-92 | the cascade equals short-circuit evaluation of the ordered list [picture check, data check], then the lookup |
| UserValidationService.NoPictureGivesPictureResponse | src/app/shared/services/UserValidationService.spec.ts:49-62 | with the default picture, the result is the picture response whatever the data and the lookup answer |
| UserValidationService.MissingDataGivesDataResponse | src/app/shared/services/UserValidationService.spec.ts:64-77 | with a picture but invalid data, the result is the required-fields response whatever the lookup answer |
| UserValidationService.ValidDataDelegatesToLookup | src/app/shared/services/UserValidationService.spec.ts:79-92 | with a picture and valid data, the existence check's response for the lookup answer is the result |
| UserValidationService.LookupMattersOnlyWhenAsked | src/app/shared/services/UserValidationService.spec.ts:49-92 | the lookup answer changes the outcome if and only if the cascade reaches the existence check |
| UserValidationService.ZeroSettingIsPresent | src/app/shared/services/UserValidationService.spec.ts:94-104 | a record with a filled name and image and all four settings defined is valid data, whatever the setting values (0 included) |
| UserValidationService.AbsentImageIsInvalidData | src/app/shared/services/UserValidationService.spec.ts:106-117 | an undefined profile image makes the data invalid (the tested fact); under the model's picture check it also passes that check and yields the required-fields response |
| UserValidationServiceTests.ValidUser | src/app/shared/services/UserValidationService.spec.ts:21-30 | the fixture passes both local checks and is named "testName" |
| UserValidationServiceTests.DefaultPictureScenario | src/app/shared/services/UserValidationService.spec.ts:49-62 | the fixture with the default picture validates to (false, SELECT_PICTURE_VALIDATION_MESSAGE) |
| UserValidationServiceTests.UndefinedImageScenario | src/app/shared/services/UserValidationService.spec.ts:106-117 | the fixture without a profile image is not valid data |
| UserValidationServiceTests.ValidUserScenario | src/app/shared/services/UserValidationService.spec.ts:79-185 | the fixture is looked up as "testName"; a free name gives (true, no message), a taken name gives (false, EXISTING_USERNAME_VALIDATION_MESSAGE) |

## Left out

- IsUserPictureSet: the tests do not fix its answer on an absent or empty image, because they always stub it; the model counts such an image as set, so the record gets the required-fields response rather than the picture response.

- The remote lookup itself. Its HTTP request, endpoint and JSON decoding are not modelled. Its answer is the boolean input `userAlreadyExists` of `Validate`.
- A failed lookup (network or server error). The tests never exercise it. The validator is meant to pass such a failure on to its caller rather than treat it as "name is free"; the model has no error path for it.
- Asynchronous delivery. The source wraps every response in an Observable; the model returns plain values.
- Angular dependency injection, the mock HTTP backend and the "should have http" test: these are framework wiring.
- Jasmine spies. The tests replace the predicates with stubs and record calls. The model instead states the cascade's dependence on the two predicates for all records, and models "called with `user.name`" as the `Lookup(user.name)` step.
- Repeated validation of the same record. It gives the same outcome by construction, because every member is a pure function; no lemma states it.
- The default values of a freshly constructed `User`. `models/User.ts` is not part of this model; the model's `User` is an ordinary value with every field given.
- The statistics component and the picture-upload service. They are alert glue and upload transport, outside the validator.
