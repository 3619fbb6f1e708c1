/** The request methods of `src/http/mod.rs` and the byte strings that name them. */
module HttpMethods {
  import opened Bytes
  import opened Wrappers

  datatype HttpMethod = Get | Head | Post | Put | Delete | Connect | Options | Trace | Patch

  /** The one request-line token each method is read from. */
  function Name(m: HttpMethod): Bytes {
    match m
    case Get => ['G' as uint8, 'E' as uint8, 'T' as uint8]
    case Head => ['H' as uint8, 'E' as uint8, 'A' as uint8, 'D' as uint8]
    case Post => ['P' as uint8, 'O' as uint8, 'S' as uint8, 'T' as uint8]
    case Put => ['P' as uint8, 'U' as uint8, 'T' as uint8]
    case Delete => ['D' as uint8, 'E' as uint8, 'L' as uint8, 'E' as uint8, 'T' as uint8, 'E' as uint8]
    case Connect => ['C' as uint8, 'O' as uint8, 'N' as uint8, 'N' as uint8, 'E' as uint8, 'C' as uint8, 'T' as uint8]
    case Options => ['O' as uint8, 'P' as uint8, 'T' as uint8, 'I' as uint8, 'O' as uint8, 'N' as uint8, 'S' as uint8]
    case Trace => ['T' as uint8, 'R' as uint8, 'A' as uint8, 'C' as uint8, 'E' as uint8]
    case Patch => ['P' as uint8, 'A' as uint8, 'T' as uint8, 'C' as uint8, 'H' as uint8]
  }

  /**
   * `impl From<&[u8]> for HttpMethod`: an exact, case-sensitive match on the nine tokens.
   * `None` stands for the `unreachable!()` arm, which panics.
   */
  function FromBytes(value: Bytes): (r: Option<HttpMethod>)
    ensures r.Some? ==> Name(r.value) == value
  {
    if value == Name(Get) then Some(Get)
    else if value == Name(Head) then Some(Head)
    else if value == Name(Post) then Some(Post)
    else if value == Name(Put) then Some(Put)
    else if value == Name(Delete) then Some(Delete)
    else if value == Name(Connect) then Some(Connect)
    else if value == Name(Options) then Some(Options)
    else if value == Name(Trace) then Some(Trace)
    else if value == Name(Patch) then Some(Patch)
    else None
  }

  /** Each method is produced by its own token. */
  lemma FromName(m: HttpMethod)
    ensures FromBytes(Name(m)) == Some(m)
  {
  }

  /** A byte string is accepted exactly when it is one of the nine tokens. */
  lemma FromBytesAccepts(value: Bytes)
    ensures FromBytes(value).Some? <==> exists m :: Name(m) == value
  {
    if m :| Name(m) == value {
      FromName(m);
    }
  }

  /** No two methods share a token, so distinct accepted strings give distinct methods. */
  lemma NameInjective(m1: HttpMethod, m2: HttpMethod)
    requires Name(m1) == Name(m2)
    ensures m1 == m2
  {
    FromName(m1);
    FromName(m2);
  }

  /** Lower-case `get` and the prefix `GE` are not methods: both reach `unreachable!()`. */
  lemma LowercaseAndPrefixPanic()
    ensures FromBytes(['g' as uint8, 'e' as uint8, 't' as uint8]) == None
    ensures FromBytes(['G' as uint8, 'E' as uint8]) == None
  {
  }
}
