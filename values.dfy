/**
 * The typed value a configuration entry resolves to, and the boolean
 * vocabulary that both type inference (config.py) and the `str2bool` flag
 * parser (argparse.py) recognise.
 */
module Values {
  import opened Wrappers
  import opened Text

  /**
   * Python's int, float, bool or str result. A float keeps the text it was
   * read from: floating-point values themselves are not modelled.
   */
  datatype TypedValue = Int(i: int) | Float(text: string) | Bool(b: bool) | Str(s: string)

  const TrueWords: set<string> := {"yes", "true", "on", "1"}
  const FalseWords: set<string> := {"no", "false", "off", "0"}

  /** The boolean that `s.strip().lower()` spells, if it is one of the eight words. */
  function BoolWord(s: string): Option<bool> {
    var w := Lower(Strip(s));
    if w in TrueWords then Some(true)
    else if w in FalseWords then Some(false)
    else None
  }
}
