/** The format flag bits (DP_F_*). */
module FormatFlags {

  datatype Flags = Flags(minus: bool, plus: bool, space: bool, num: bool, zero: bool, up: bool, unsigned: bool)

  const NO_FLAGS := Flags(false, false, false, false, false, false, false)

  predicate IsFlag(c: char) {
    c in "-+ #0"
  }

  /** `flags |= ...` for one flag character. */
  function AddFlag(flags: Flags, c: char): Flags {
    match c
    case '-' => flags.(minus := true)
    case '+' => flags.(plus := true)
    case ' ' => flags.(space := true)
    case '#' => flags.(num := true)
    case '0' => flags.(zero := true)
    case _ => flags
  }

  /** The sign column shared by fmtint and fmtfp. */
  function SignText(negative: bool, flags: Flags): (r: string)
    ensures |r| <= 1
  {
    if negative then "-" else if flags.plus then "+" else if flags.space then " " else ""
  }
}
