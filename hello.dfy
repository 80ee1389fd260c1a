/** hello.py: the greeting. The name is absent (`greet()`) or a string; an empty string
    is falsy in Python and counts as absent. */
module Hello {
  import opened Cells

  const Prefix: string := "Hello, "
  const Suffix: string := "!"
  const Default: string := "World"

  /** `greet(name)`. */
  function Greet(name: Option<string>): (g: string)
    ensures |g| >= |Prefix| + |Suffix| + 1
    ensures g[..|Prefix|] == Prefix && g[|g| - 1] == Suffix[0]
  {
    if name.Some? && name.value != "" then Prefix + name.value + Suffix
    else Prefix + Default + Suffix
  }

  /** The name a greeting addresses: what lies between the prefix and the "!". */
  function Addressee(g: string): (n: string)
    requires |g| >= |Prefix| + |Suffix|
    ensures |n| == |g| - |Prefix| - |Suffix|
  {
    g[|Prefix|..|g| - |Suffix|]
  }

  /** A greeting names whom it greets: the given name, or "World" for none. */
  lemma GreetAddressee(name: Option<string>)
    ensures Addressee(Greet(name)) == if name.Some? && name.value != "" then name.value else Default
  {
    var n := if name.Some? && name.value != "" then name.value else Default;
    var g := Prefix + n + Suffix;
    assert g[|Prefix|..|g| - |Suffix|] == n;
  }

  /** Different non-empty names get different greetings. */
  lemma GreetInjective(a: string, b: string)
    requires a != "" && b != ""
    requires Greet(Some(a)) == Greet(Some(b))
    ensures a == b
  {
    GreetAddressee(Some(a));
    GreetAddressee(Some(b));
  }

  /** `greet()`, `greet(None)` and `greet("")` all greet the world, exactly as a caller
      passing "World" would be greeted. */
  lemma GreetDefault()
    ensures Greet(None) == "Hello, World!"
    ensures Greet(Some("")) == Greet(None)
    ensures Greet(Some(Default)) == Greet(None)
  {
  }

  /** `test_name`. */
  lemma GreetAlice()
    ensures Greet(Some("Alice")) == "Hello, Alice!"
  {
  }
}
