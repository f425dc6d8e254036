/**
 Library code the handlers call and whose internals are not modelled:
 the MD5 hex digest of uploaded bytes and bleach's markup sanitiser.
 Both are passed in as functions, so the model holds for any choice.
 */
module External {
  import opened Schema

  datatype Env = Env(
    /** `hashlib.md5(content).hexdigest()` */
    md5: seq<byte> -> string,
    /** `bleach.clean(text)` */
    clean: string -> string)
}
