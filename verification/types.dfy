/** Values shared by every part of the image upload server model. */
module Types {

  /** An optional value: a JavaScript parameter or property that may be undefined. */
  datatype Option<+T> = None | Some(value: T)

  /** The outcome of evaluating a JavaScript expression that may throw. */
  datatype Eval<+T> = Value(value: T) | Threw

  /** An error that carries an HTTP status code (the HttpError class). */
  datatype HttpError = HttpError(message: string, code: int)

  /** Either a value or an HttpError handed to a callback or to `next`. */
  datatype Result<+T> = Ok(value: T) | Err(error: HttpError)

  /**
   * A JSON value as JSON.parse produces it. Numbers are integers: every
   * number the server itself writes is an image dimension.
   */
  datatype Json =
    | JNull
    | JBool(b: bool)
    | JNum(n: int)
    | JStr(s: string)
    | JArr(items: seq<Json>)
    | JObj(fields: map<string, Json>)

  /** The values on which the JavaScript `in` operator throws a TypeError. */
  predicate IsPrimitive(j: Json) {
    j.JNull? || j.JBool? || j.JNum? || j.JStr?
  }

  /** One catalog entry, the IImage shape. */
  datatype ImageRecord = ImageRecord(id: string, url: string, blurHash: string, width: nat, height: nat)

  /** The part of a multer file object that the server reads. */
  datatype UploadedFile = UploadedFile(mimetype: string, size: nat, path: string, filename: string)
}
