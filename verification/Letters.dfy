/** The words the programs take: lower-case letters, each with its place in a table of 26. */
module Letters {
  type Letter = c: char | 'a' <= c <= 'z' witness 'a'
  type Word = seq<Letter>

  function Index(c: Letter): (i: nat)
    ensures i < 26
  {
    c as int - 'a' as int
  }

  function LetterAt(i: nat): (c: Letter)
    requires i < 26
    ensures Index(c) == i
  {
    'a' + i as char
  }
}
