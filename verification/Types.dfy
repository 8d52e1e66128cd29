/** Requests, responses and log records: src/types.py. */
module Types {
  import opened Options

  datatype CommandName = PING | SET | GET | DEL | EXPIRE | TTL | MGET | KEYS | FLUSHALL

  datatype Request = Request(command: CommandName, args: seq<string>)

  datatype ErrorCode = WRONG_ARITY | INVALID_REQUEST

  /** What a response says; its identifier is added where it is sent.  `Names` is the array of KEYS
      without its order. */
  datatype Response =
    | Simple(message: string)
    | Bulk(value: string)
    | Integer(integer: int)
    | Null
    | Array(values: seq<Option<string>>)
    | Names(names: set<string>)
    | Error(code: ErrorCode)

  /** Python's `int` on strings and `fnmatch`, as any functions. */
  datatype Env = Env(parseInt: string -> Option<int>, glob: (string, string) -> bool)

  /** The clock readings that one command makes, by position. */
  type Readings = nat -> real

  datatype LogRecord = LogRecord(sequence: int, request: Request)

  datatype FsyncPolicy = NEVER | ALWAYS | EVERY_N
}
