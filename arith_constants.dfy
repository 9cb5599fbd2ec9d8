/**
 * The constants of the integer arithmetic coder in `arithmetic/mod.rs`:
 * 16-bit code values, the quarter points of the code range, the frequency
 * ceiling, and the symbol numbering (256 byte symbols and one end symbol).
 */
module ArithConstants {
  const NumberOfChars: nat := 256
  const CodeValueBits: nat := 16
  const CodeValueMax: nat := 0x1_0000 - 1
  const FirstQuarter: nat := CodeValueMax / 4 + 1
  const Half: nat := 2 * FirstQuarter
  const ThirdQuarter: nat := 3 * FirstQuarter
  /** The largest total the adaptive model may reach before it halves its counts. */
  const MaxFrequency: nat := FirstQuarter - 1
  const EofSymbol: nat := NumberOfChars + 1
  const NumberOfSymbols: nat := NumberOfChars + 1

  /** The values the definitions above work out to. */
  lemma ConstantValues()
    ensures CodeValueMax == 65535 && FirstQuarter == 16384 && Half == 32768 && ThirdQuarter == 49152
    ensures MaxFrequency == 16383 && EofSymbol == 257 && NumberOfSymbols == 257
  {
  }
}
