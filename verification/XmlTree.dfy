/** The value of a document tree, without its links. */
module XmlTree {
  datatype Attribute = Attribute(name: string, value: string)

  datatype Tree =
    | Element(name: string, attributes: seq<Attribute>, children: seq<Tree>)
    | Text(value: string, cdata: bool)
    | Comment(value: string)
    | Unknown(value: string)
    | Declaration(version: string, encoding: string, standalone: string)
    | Document(name: string, children: seq<Tree>)
  {
    predicate IsPlainText() {
      Text? && !cdata
    }
  }

  /** What `c_str` shows of a string: the part before its first NUL. */
  function CStr(s: string): (r: string)
    ensures '\0' !in r && r <= s
    ensures '\0' !in s ==> r == s
  {
    if s == "" || s[0] == '\0' then "" else [s[0]] + CStr(s[1..])
  }

  /** It goes on to the end, or to a NUL. */
  lemma {:induction false} CStrEnds(s: string)
    ensures |CStr(s)| == |s| || s[|CStr(s)|] == '\0'
  {
    if s != "" && s[0] != '\0' {
      CStrEnds(s[1..]);
    }
  }
}
