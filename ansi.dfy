/** The terminal colour vocabulary of the prompt library: the parts of
    PrettyPrompt's `AnsiColor` and `ConsoleFormat` that the REPL reads or
    writes. Only their values matter here; escape-code rendering is not modelled. */
module Ansi {

  /** The named colours exposed as public static `AnsiColor` fields. */
  datatype NamedColor =
    | Black | Red | Green | Yellow | Blue | Magenta | Cyan | White
    | BrightBlack | BrightRed | BrightGreen | BrightYellow
    | BrightBlue | BrightMagenta | BrightCyan | BrightWhite

  /** An 8-bit colour channel, as C#'s `byte`. */
  type Byte = x: int | 0 <= x < 256

  /** A resolved terminal colour: a 24-bit RGB colour or one of the named colours. */
  datatype AnsiColor = Rgb(r: Byte, g: Byte, b: Byte) | Named(color: NamedColor)

  /** A console format; the REPL only ever sets its foreground colour. */
  datatype ConsoleFormat = ConsoleFormat(foreground: AnsiColor)
}
