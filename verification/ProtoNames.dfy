/**
 The two spellings of a Protocol Buffers field (mlflow_oidc_auth/hooks/dual_spelling_guard.py).

 The guard derives a field's lowerCamelCase spelling by splitting at underscores and capitalising
 the words; the protobuf runtime derives its `json_name` with a machine that walks the characters.
 */
module ProtoNames {
  import opened Text

  function Capitalize(word: string): (r: string) {
    if word == "" then "" else [UpperChar(word[0])] + word[1..]
  }

  function Split(name: string): (words: seq<string>)
    ensures |words| > 0
  {
    if name == "" then [""]
    else
      var rest := Split(name[1..]);
      if name[0] == '_' then [""] + rest else [[name[0]] + rest[0]] + rest[1..]
  }

  function JoinCapitalized(words: seq<string>): (r: string) {
    if words == [] then "" else Capitalize(words[0]) + JoinCapitalized(words[1..])
  }

  /** The guard's spelling: the first word as it stands, every later one capitalised. */
  function SnakeToCamel(name: string): (r: string) {
    var words := Split(name);
    words[0] + JoinCapitalized(words[1..])
  }

  /** The ProtoJSON name machine: drop each underscore and upper-case the character after it. */
  function JsonName(name: string, capitalizeNext: bool := false): (r: string) {
    if name == "" then ""
    else if name[0] == '_' then JsonName(name[1..], true)
    else [if capitalizeNext then UpperChar(name[0]) else name[0]] + JsonName(name[1..], false)
  }

  /** The spelling of a list of words, the first capitalised on request. */
  function Spelled(words: seq<string>, capitalizeNext: bool): (r: string)
    requires words != []
  {
    (if capitalizeNext then Capitalize(words[0]) else words[0]) + JoinCapitalized(words[1..])
  }

  lemma EmptyWordFirst(words: seq<string>, capitalizeNext: bool)
    requires words != []
    ensures Spelled([""] + words, capitalizeNext) == Spelled(words, true)
  {
    assert ([""] + words)[1..] == words;
  }

  lemma LongerWordFirst(words: seq<string>, c: char, capitalizeNext: bool)
    requires words != []
    ensures Spelled([[c] + words[0]] + words[1..], capitalizeNext)
            == [if capitalizeNext then UpperChar(c) else c] + Spelled(words, false)
  {
    var longer := [[c] + words[0]] + words[1..];
    assert longer[1..] == words[1..];
    assert ([c] + words[0])[1..] == words[0];
  }

  lemma {:induction false} MachineWalksTheWords(name: string, capitalizeNext: bool)
    ensures JsonName(name, capitalizeNext) == Spelled(Split(name), capitalizeNext)
  {
    if name != "" {
      var rest := Split(name[1..]);
      MachineWalksTheWords(name[1..], name[0] == '_');
      if name[0] == '_' {
        EmptyWordFirst(rest, capitalizeNext);
      } else {
        LongerWordFirst(rest, name[0], capitalizeNext);
      }
    }
  }

  /** Splitting and capitalising computes exactly the protobuf `json_name`, on every name. */
  lemma SnakeToCamelIsJsonName(name: string)
    ensures SnakeToCamel(name) == JsonName(name)
  {
    MachineWalksTheWords(name, false);
  }

  /** A field can be spelled two ways exactly when its name has an underscore. */
  lemma {:induction false} OneSpellingIffNoUnderscore(name: string, capitalizeNext: bool)
    ensures '_' !in JsonName(name, capitalizeNext)
    ensures '_' in name ==> |JsonName(name, capitalizeNext)| < |name|
    ensures '_' !in name && !capitalizeNext ==> JsonName(name, capitalizeNext) == name
    ensures |JsonName(name, capitalizeNext)| <= |name|
  {
    if name != "" {
      assert name == [name[0]] + name[1..];
      OneSpellingIffNoUnderscore(name[1..], name[0] == '_');
    }
  }
}
