/** Unix path composition as Rust's `PathBuf::push` and `Path::join` perform it. */
module Paths {

  /** `base.join(comp)`: an absolute component replaces the whole path; otherwise the
      component is appended after a `/`, which is not doubled when `base` already ends in one. */
  function PathJoin(base: string, comp: string): string
  {
    if |comp| > 0 && comp[0] == '/' then comp
    else if |base| == 0 || base[|base| - 1] == '/' then base + comp
    else base + "/" + comp
  }

  /** `p` is `dir` or lies below it. */
  predicate UnderDir(p: string, dir: string) {
    p == dir || (|dir| + 1 <= |p| && p[..|dir| + 1] == dir + "/")
  }
}
