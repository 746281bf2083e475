/**
 * The command catalog as the two generators see it. The host's
 * CommandDefinition and CommandArgumentDefinition objects are reduced to the
 * values the generators read from them.
 */
module Commands {
  import opened JavaStrings

  /**
   * One entry of a command's argument map: its key, the simple name of its
   * declared Java type ("String", "Boolean", ...), whether it is required, and
   * its description, which may be null.
   */
  datatype Argument = Argument(
    name: string,
    dataType: string,
    required: bool,
    description: Option<string>)

  /**
   * A command: its name tokens, short description (possibly null), hidden
   * flag, the class name of the first step of its pipeline, and its
   * arguments in map iteration order.
   */
  datatype Command = Command(
    name: seq<string>,
    shortDescription: Option<string>,
    hidden: bool,
    firstStepClass: string,
    arguments: seq<Argument>)

  /** No name token is empty (a case conversion reads the token's first character). */
  predicate TokensNonEmpty(name: seq<string>)
  {
    forall i :: 0 <= i < |name| ==> |name[i]| > 0
  }
}
