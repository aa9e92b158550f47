/** The parts of the database schema (src/db/schema.ts) that the key
    generators meet: the `users.code` column where a verification code is
    stored. The tables themselves have no behaviour and are not modelled. */
module Schema {

  /** `users.code` is declared `varchar(6)`. */
  const CodeColumnLength: nat := 6

  /** A string can be stored in a `varchar(n)` column when it has at most `n` characters. */
  predicate FitsVarchar(s: string, n: nat) {
    |s| <= n
  }
}
