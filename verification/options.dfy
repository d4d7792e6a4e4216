/** The options the parser recognises. Every field is optional in the source; an
    absent flag reads as false and an absent list as empty. */
module ParseOptions {

  datatype Options = Options(
    /** Trim text nodes, and drop the ones left empty. */
    trimWhitespace: bool,
    /** Drop comment nodes once they are parsed. */
    ignoreComments: bool,
    /** Drop instruction nodes (`<?…?>`, `<!…>`) once they are parsed. */
    ignoreInstructions: bool,
    /** Tags of elements that never have children, such as `br`. */
    voidElements: seq<string>,
    /** Tags of elements whose content is kept as unparsed text, such as `script`. */
    literalElements: seq<string>)

  /** The options of a call that passes none. */
  const Defaults: Options := Options(false, false, false, [], [])
}
