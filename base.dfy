/** Values shared by the registry and the display cache: identities, the host's
    view of an enchantment, materials, and Java's rendering of null strings. */
module Base {

  datatype Option<+T> = None | Some(value: T)

  /** A namespaced key such as minecraft:sharpness. The host's enchantments
      compare equal exactly when their keys do. */
  datatype NamespacedKey = NamespacedKey(namespace: string, key: string)

  /** NamespacedKey.minecraft(key): every enchantment of this plugin lives in
      the minecraft namespace. */
  function Minecraft(key: string): (k: NamespacedKey)
    ensures k.key == key && k.namespace == "minecraft"
  {
    NamespacedKey("minecraft", key)
  }

  /** What the host's enchantment table holds about one enchantment: its key,
      the name it is indexed under, and whether it is a curse. */
  datatype Enchantment = Enchantment(key: NamespacedKey, name: string, cursed: bool)

  /** Item materials are named by their enum constant. */
  type Material = string

  const BOOK: Material := "BOOK"
  const ENCHANTED_BOOK: Material := "ENCHANTED_BOOK"

  predicate IsBook(m: Material) {
    m == BOOK || m == ENCHANTED_BOOK
  }

  /** A Java string that may be null, as String.valueOf and string
      concatenation render it. */
  function JavaString(s: Option<string>): string {
    if s.Some? then s.value else "null"
  }

  /** String.toLowerCase on the ASCII letters. */
  function LowerChar(c: char): char {
    if 'A' <= c <= 'Z' then (c as int + 32) as char else c
  }

  function Lower(s: string): (r: string)
    ensures |r| == |s|
    ensures forall i :: 0 <= i < |s| ==> r[i] == LowerChar(s[i])
  {
    seq(|s|, i requires 0 <= i < |s| => LowerChar(s[i]))
  }

  /** Lower-casing a lower-cased string changes nothing. */
  lemma LowerTwice(s: string)
    ensures Lower(Lower(s)) == Lower(s)
  {
  }

}
