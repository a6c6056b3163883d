/** The account record and the fixed limits of the account table. */
module Accounts {

  /** Capacity of the in-memory account table (MAX_ACCOUNTS). */
  const MaxAccounts: nat := 10

  /** Longest name the loader accepts: the name buffer holds 49 bytes and a terminator.
      A character of the model stands for one byte of the file. */
  const MaxNameLength: nat := 49

  datatype Option<+T> = None | Some(value: T)

  /** One account. The balance is kept in whole cents, so that arithmetic and the
      two-decimal rendering are exact. */
  datatype Account = Account(pin: int, name: string, balance: int)

  /** A name that can be written as the middle field of a record line and read back:
      between 1 and 49 characters (bytes), no field separator, no line break. */
  predicate NameOk(name: string) {
    1 <= |name| <= MaxNameLength && ',' !in name && '\n' !in name
  }
}
