/** Value types shared between the user interface and the speech service. */
module Types {

  /** The voice gender the user selects. */
  datatype Gender = Male | Female
}
