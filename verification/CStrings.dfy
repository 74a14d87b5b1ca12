/** Searching C and C++ strings. */
module CStrings {
  import opened Options

  /** std::string::find and strchr: the first c from index i on. */
  function Find(str: string, c: char, i: nat): (r: Option<nat>)
    requires i <= |str|
    ensures r.Some? ==> i <= r.value < |str| && str[r.value] == c && c !in str[i..r.value]
    ensures r.None? ==> c !in str[i..]
    decreases |str| - i
  {
    if i == |str| then None
    else if str[i] == c then Some(i)
    else
      Find(str, c, i + 1)
  }

  /** strrchr: the last c. */
  function FindLast(str: string, c: char): (r: Option<nat>)
    ensures r.Some? ==> r.value < |str| && str[r.value] == c && c !in str[r.value + 1..]
    ensures r.None? ==> c !in str
  {
    if str == "" then None
    else if str[|str| - 1] == c then Some(|str| - 1)
    else FindLast(str[..|str| - 1], c)
  }

  /** What c_str() shows of a string: everything before the first NUL. */
  function CString(s: string): (r: string)
    ensures r <= s && 0 as char !in r && (r != s ==> s[|r|] == 0 as char)
    ensures 0 as char !in s ==> r == s
  {
    if s == "" || s[0] == 0 as char then "" else [s[0]] + CString(s[1..])
  }
}
