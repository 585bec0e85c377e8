/** Material tokens of a claim
    (apps/api/backend/ask/claim_verification.py, `_TOKEN`, `_material_tokens`). */
module ClaimTokens {

  /** Which characters make words, and case folding. */
  datatype Alphabet = Alphabet(isWord: char -> bool, fold: string -> string)

  /** The space that joins covered spans is not a word character. */
  ghost predicate SpaceSeparates(env: Alphabet)
  {
    !env.isWord(' ')
  }

  predicate Connective(token: string)
  {
    token in {"and", "or", "the", "a", "an"}
  }

  /** The length of the word at the start. */
  function WordLength(env: Alphabet, s: string): (n: nat)
    ensures n <= |s|
    ensures s != [] && env.isWord(s[0]) ==> n > 0
  {
    if s != [] && env.isWord(s[0]) then 1 + WordLength(env, s[1..]) else 0
  }

  /** The maximal runs of word characters, in order. */
  function Words(env: Alphabet, s: string): seq<string>
    decreases |s|
  {
    if s == [] then []
    else if !env.isWord(s[0]) then Words(env, s[1..])
    else [s[..WordLength(env, s)]] + Words(env, s[WordLength(env, s)..])
  }

  function Material(env: Alphabet, words: seq<string>): seq<string>
  {
    if words == [] then []
    else if Connective(env.fold(words[0])) then Material(env, words[1..])
    else [env.fold(words[0])] + Material(env, words[1..])
  }

  function Tokens(env: Alphabet, s: string): seq<string>
  {
    Material(env, Words(env, s))
  }

  /** The texts with one space between neighbours. */
  function Joined(texts: seq<string>): string
  {
    if texts == [] then []
    else if |texts| == 1 then texts[0]
    else texts[0] + " " + Joined(texts[1..])
  }

  // ----- joining adds no token ----------------------------------------------------------

  lemma {:induction false} WordLengthBeforeSpace(env: Alphabet, a: string, b: string)
    requires SpaceSeparates(env)
    ensures WordLength(env, a + " " + b) == WordLength(env, a)
  {
    var s := a + " " + b;
    if a != [] && env.isWord(a[0]) {
      WordLengthBeforeSpace(env, a[1..], b);
      assert s[1..] == a[1..] + " " + b;
    } else {
      assert a == [] ==> s[0] == ' ';
    }
  }

  lemma {:induction false} WordsAcrossSpace(env: Alphabet, a: string, b: string)
    requires SpaceSeparates(env)
    ensures Words(env, a + " " + b) == Words(env, a) + Words(env, b)
    decreases |a|
  {
    var s := a + " " + b;
    if a == [] {
      assert s[0] == ' ' && s[1..] == b;
    } else if !env.isWord(a[0]) {
      assert s[1..] == a[1..] + " " + b;
      WordsAcrossSpace(env, a[1..], b);
    } else {
      var n := WordLength(env, a);
      WordLengthBeforeSpace(env, a, b);
      assert s[..n] == a[..n] && s[n..] == a[n..] + " " + b;
      WordsAcrossSpace(env, a[n..], b);
    }
  }

  lemma {:induction false} MaterialAppend(env: Alphabet, a: seq<string>, b: seq<string>)
    ensures Material(env, a + b) == Material(env, a) + Material(env, b)
  {
    hide Connective;
    if a == [] {
      assert a + b == b;
    } else {
      MaterialAppend(env, a[1..], b);
      assert (a + b)[1..] == a[1..] + b;
    }
  }

  /** The tokens of every text, one list after another. */
  function AllTokens(env: Alphabet, texts: seq<string>): seq<string>
  {
    if texts == [] then [] else Tokens(env, texts[0]) + AllTokens(env, texts[1..])
  }

  /** Joining with spaces neither splits nor merges tokens. */
  lemma {:induction false} JoinedTokens(env: Alphabet, texts: seq<string>)
    requires SpaceSeparates(env)
    ensures Tokens(env, Joined(texts)) == AllTokens(env, texts)
  {
    if |texts| == 1 {
      assert AllTokens(env, texts[1..]) == [];
    } else if |texts| > 1 {
      JoinedTokens(env, texts[1..]);
      WordsAcrossSpace(env, texts[0], Joined(texts[1..]));
      MaterialAppend(env, Words(env, texts[0]), Words(env, Joined(texts[1..])));
    }
  }
}
