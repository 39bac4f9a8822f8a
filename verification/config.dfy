/** The compile-time constants and fixed configuration of SerialCommand.h and
    the SerialCommand constructor. */
module Config {

  /** SERIALCOMMAND_BUFFER: characters one command line can hold. */
  const BufferSize: nat := 48

  /** Slots of the character array behind the line: one more for the NUL. */
  const BufferSlots: nat := BufferSize + 1

  /** SERIALCOMMAND_MAXCOMMANDLENGTH: significant characters of a command name. */
  const MaxCommandLength: nat := 12

  /** `commandCount` is a byte, so it counts modulo 256. */
  const ByteRange: nat := 256

  /** End-of-line character set by the constructor; there is no setter. */
  const Terminator: char := '\n'

  /** The single token delimiter (`delim` holds " "); there is no setter. */
  const Delimiter: char := ' '

  const Nul: char := '\0'

  /** `isprint` in the C locale: the characters 0x20 to 0x7E. */
  predicate IsPrint(c: char) {
    ' ' <= c <= '~'
  }
}
