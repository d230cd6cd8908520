/** Values as the synchronisation scripts see them once `json.load` has run,
    and the exceptions that escape from them. */
module Values {

  /** A JSON scalar present in a decoded object. Floats, booleans, arrays
      and nested objects are not modelled. */
  datatype JVal = Null | Str(s: string) | Int(i: int)

  /** One key of a decoded JSON object: missing, or present with a value. */
  datatype Field = Absent | Present(v: JVal)
  {
    /** `dict.get(key, default)`: the default only when the key is missing. */
    function GetOr(default: JVal): JVal
    {
      match this
      case Absent => default
      case Present(x) => x
    }
  }

  /** One object of a manifest file's top-level array. Keys the scripts
      never read are omitted. */
  datatype Entry = Entry(
    repoType: Field,
    url: Field,
    path: Field,
    remote: Field,
    branch: Field,
    revision: Field,
    version: Field)

  /** The `type` key names one of the two supported systems. */
  predicate ValidType(t: Field)
  {
    t == Present(Str("git")) || t == Present(Str("svn"))
  }

  /** An exception that escapes a script function and ends the run. */
  datatype Exc =
    | KeyError(key: string)
    | TypeError
    | AttributeError
    | FileNotFoundError(path: string)

  datatype Option<+T> = None | Some(value: T)

  /** Either a value or the exception that interrupted its computation. */
  datatype Result<+T> = Ok(value: T) | Err(exc: Exc)
}
