/**
 * determine_linebreak of LaF/src/file.cpp.  Its loop takes the same
 * branches as the one in src/file.cpp, so it is proved against the same
 * reference semantics, `SrcFile.LinebreakOf`, and the Unix / DOS / Mac /
 * none lemmas proved there apply to it unchanged.
 */
module LaFFile {
  import SrcFile

  /** Reads byte by byte until the first '\n' or '\r'; for '\r' one more
    * byte decides between "\r\n" and a lone '\r'. */
  method DetermineLinebreak(f: seq<char>) returns (r: int)
    ensures r == SrcFile.LinebreakOf(f)
    ensures 0 <= r <= 3
  {
    var pos := 0;
    while pos < |f|
      invariant pos <= |f| && SrcFile.FirstBreak(f, pos) == SrcFile.FirstBreak(f, 0)
    {
      var c := f[pos];
      pos := pos + 1;
      if c == '\n' {
        return SrcFile.Unix;
      }
      if c == '\r' {
        if pos < |f| {
          c := f[pos];
          pos := pos + 1;
          if c == '\n' {
            return SrcFile.Dos;
          }
        }
        return SrcFile.Mac;
      }
    }
    return SrcFile.NoBreak;
  }
}
