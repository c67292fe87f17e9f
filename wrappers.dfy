/** Option and Result, standing for C# null references and thrown exceptions, and a sequence step the proofs share. */
module Wrappers {

  datatype Option<+T> = None | Some(value: T) {
    function GetOr(default: T): T {
      match this
      case Some(v) => v
      case None => default
    }
  }

  datatype Result<+T, +E> = Success(value: T) | Failure(error: E)

  /** The exceptions the documentation core throws on purpose (or by a missing null check). */
  datatype Exception =
    | FileNotFound(path: string)   // System.IO.FileNotFoundException
    | FileFormat                   // System.IO.FileFormatException
    | NullReference                // System.NullReferenceException
    | XmlParse                     // System.Xml.XmlException: markup that is not well-formed

  /** One step of an append induction: a snoc on the left part regrouped. */
  lemma ConcatStep<T>(whole: seq<T>, left: seq<T>, right: seq<T>, middle: seq<T>, last: seq<T>)
    requires whole == left + middle + last && right == middle + last
    ensures whole == left + right
  {
  }
}
