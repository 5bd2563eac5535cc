/** The limits of reviews/constants.py. */
module Constants {

  /** Length of the text shown by the models' `__str__`. */
  const MaxStrLength: nat := 20
  const MaxCharLength: nat := 256
  const MaxSlugLength: nat := 50

  const MaxUsernameLength: nat := 150
  const MaxEmailLength: nat := 254
  const MaxFirstLastNameLength: nat := 150

  const MinScore: int := 1
  const MaxScore: int := 10
}
