/** The ANSI-coloured message prefixes of colors/colors.go. */
module Colors {

  /** Bold foreground colour `code` around `s`, then a reset. */
  function Tint(code: string, s: string): string
  {
    "\U{1B}[1;" + code + "m" + s + "\U{1B}[0m"
  }

  function White(s: string): string { Tint("37", s) }
  function Red(s: string): string { Tint("31", s) }
  function Green(s: string): string { Tint("32", s) }
  function Magenta(s: string): string { Tint("35", s) }

  const ErrorPrefix: string := White("[") + Red("ERROR") + White("]")
  const SuccessPrefix: string := White("[") + Green("SUCCESS") + White("]")
}
