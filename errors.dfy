/**
 * The errors the matcher and the multipart reader report, one constructor per
 * place that raises one. Go formats each into text; the model keeps the
 * distinguishing data instead.
 */
module Errors {
  import opened Default

  datatype Error =
    // Walk: the expected node's type does not suit the actual node's type.
    | StringTypeMismatch(expected: ValueType)
    | NumberTypeMismatch(expected: ValueType)
    | BooleanTypeMismatch(expected: ValueType)
    | ArrayTypeMismatch(expected: ValueType)
    // Walk: the parser rejects an object's text.
    | InvalidObject(text: string)
    // Text that should hold a number, a boolean, a time or a 64-bit delta does not.
    | FloatSyntax(text: string)
    | BoolSyntax(text: string)
    | TimeSyntax(text: string)
    | DeltaRange(text: string)
    // A number expectation that is not a `{{BeNumerically(..)}}` expression.
    | NumberFormat(input: string)
    // A comparison the numeric or temporal library refuses to make.
    | MatcherFault(reason: string)
    // Arrays.
    | ArrayNotBase
    | ArrayMixed
    | ArrayExpectedType(expected: ValueType)
    | ArrayFunction
    // Correlation of object arrays.
    | MixedStrategy
    | MissingStrategy
    | IndexNotNumber(actual: ValueType)
    | IndexNotInteger(text: string)
    | MissingIndexKey
    | IdNotString(actual: ValueType)
    | IdFormat(text: string)
    | IdKeyMismatch
    | MissingIdKey
    | ActualMissingKey(key: string)
    // Substitution.
    | UndefinedVariable(name: string)
    // The multipart reader.
    | HeaderWithoutKey
    | BodyWithoutKey
    | NoSuchKey(key: string)
}
