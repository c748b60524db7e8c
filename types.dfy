/** The records that the client and the server exchange (types/index.ts). */
module Types {

  /** One expression and its value, as handed to the LaTeX renderer. */
  datatype GeneratedResult = GeneratedResult(expression: string, answer: string)

  /** One entry of the server's answer list, as the client declares it. */
  datatype Response = Response(expr: string, result: string, assign: bool)
}
