/** What stands in a text behind a prefix. */
module Prefixes {
  import opened Options

  function Behind(s: string, prefix: string): (r: Option<string>)
    ensures r.Some? ==> |r.value| + |prefix| == |s|
  {
    if |prefix| <= |s| && s[..|prefix|] == prefix then Some(s[|prefix|..]) else None
  }

  lemma BehindPrefix(prefix: string, x: string)
    ensures Behind(prefix + x, prefix) == Some(x)
  {}

  // The first character already tells that the prefix is another.
  lemma BehindOther(s: string, prefix: string)
    requires s != "" && prefix != "" && s[0] != prefix[0]
    ensures Behind(s, prefix) == None
  {
    if |prefix| <= |s| {
      assert s[..|prefix|][0] == s[0];
    }
  }
}
