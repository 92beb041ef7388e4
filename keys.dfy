/**
 * The key normaliser of KeyboardMonitor: the shift table SHIFT_REFLECTOR and
 * the Key record whose equality treats a key and its shifted counterpart as
 * the same key.
 *
 * Every key of the table is a one-character string, so the table is modelled
 * over characters and a key name is only looked up when it is one character
 * long; every longer name ("ctrl", "space", ...) is its own shift.
 */
module Keys {

  /** A map sends no two keys to the same value. */
  ghost predicate Injective(m: map<char, char>)
  {
    forall a, b | a in m && b in m && m[a] == m[b] :: a == b
  }

  /** No value of the map is also one of its keys. */
  ghost predicate KeysAvoidValues(m: map<char, char>)
  {
    forall k | k in m :: m[k] !in m
  }

  /** The literal pairs the table starts from: unshifted to shifted character. */
  const Punctuation: map<char, char> := map[
    ',' := '<', '.' := '>', '/' := '?', ';' := ':', '\'' := '"',
    '[' := '{', ']' := '}', '\\' := '|',
    '1' := '!', '2' := '@', '3' := '#', '4' := '$', '5' := '%',
    '6' := '^', '7' := '&', '8' := '*', '9' := '(', '0' := ')',
    '-' := '_', '=' := '+', '`' := '~'
  ]

  /** ASCII lower case of an upper-case letter. */
  function Lower(c: char): (l: char)
    requires 'A' <= c <= 'Z'
    ensures 'a' <= l <= 'z'
  {
    (c as int + 32) as char
  }

  /**
   * The second step: every upper-case letter is sent to its lower-case letter
   * (the source builds it from the lower-case alphabet, keyed by upper case).
   */
  function Letters(): map<char, char>
  {
    map u: char | 'A' <= u <= 'Z' :: Lower(u)
  }

  /** The table before the inverse pairs are added in. */
  function Forward(): map<char, char>
  {
    Punctuation + Letters()
  }

  /** The pairs of an injective map, turned round. */
  function Inverse(m: map<char, char>): (r: map<char, char>)
    requires Injective(m)
    ensures forall k | k in m :: m[k] in r && r[m[k]] == k
    ensures forall v | v in r :: v in m.Values
  {
    map k | k in m :: m[k] := k
  }

  /** The finished table: the forward pairs updated with their inverses. */
  function Table(): map<char, char>
  {
    ForwardIsInjective();
    Forward() + Inverse(Forward())
  }

  /** No two literal pairs share their shifted character. */
  lemma PunctuationInjective()
    ensures Injective(Punctuation)
  {
    var back := map[
      '<' := ',', '>' := '.', '?' := '/', ':' := ';', '"' := '\'',
      '{' := '[', '}' := ']', '|' := '\\',
      '!' := '1', '@' := '2', '#' := '3', '$' := '4', '%' := '5',
      '^' := '6', '&' := '7', '*' := '8', '(' := '9', ')' := '0',
      '_' := '-', '+' := '=', '~' := '`'
    ];
    assert forall k | k in Punctuation :: Punctuation[k] in back && back[Punctuation[k]] == k;
  }

  /** No shifted character of a literal pair is itself a key. */
  lemma PunctuationAvoidsItself()
    ensures KeysAvoidValues(Punctuation)
  {
  }

  /** The literal pairs use no letter, on either side. */
  lemma PunctuationAvoidsLetters()
    ensures forall k | k in Punctuation :: !('A' <= k <= 'Z') && !('a' <= k <= 'z')
    ensures forall k | k in Punctuation :: !('A' <= Punctuation[k] <= 'Z') && !('a' <= Punctuation[k] <= 'z')
  {
  }

  /** The letter pairs are injective and send keys to non-keys. */
  lemma LettersFacts()
    ensures Injective(Letters()) && KeysAvoidValues(Letters())
    ensures forall k | k in Letters() :: 'A' <= k <= 'Z' && 'a' <= Letters()[k] <= 'z'
  {
  }

  /**
   * Updating one map with another whose keys and values it never meets keeps
   * it injective with keys avoiding values.
   */
  lemma DisjointUpdate(a: map<char, char>, b: map<char, char>)
    requires Injective(a) && KeysAvoidValues(a) && Injective(b) && KeysAvoidValues(b)
    requires forall k | k in a :: k !in b && a[k] !in b
    requires forall k | k in b :: k !in a && b[k] !in a
    requires forall x, y | x in a && y in b :: a[x] != b[y]
    ensures Injective(a + b) && KeysAvoidValues(a + b)
  {
  }

  lemma ForwardIsInjective()
    ensures Injective(Forward()) && KeysAvoidValues(Forward())
  {
    PunctuationInjective();
    PunctuationAvoidsItself();
    PunctuationAvoidsLetters();
    LettersFacts();
    DisjointUpdate(Punctuation, Letters());
  }

  /**
   * Adding the inverse pairs of an injective map whose keys avoid its values
   * gives an involution without fixed points.
   */
  lemma InvolutionFromInverse(m: map<char, char>)
    requires Injective(m) && KeysAvoidValues(m)
    ensures forall c | c in m + Inverse(m) ::
      var t := m + Inverse(m); t[c] in t && t[t[c]] == c && t[c] != c
  {
    var t := m + Inverse(m);
    forall c | c in t
      ensures t[c] in t && t[t[c]] == c && t[c] != c
    {
      if c in Inverse(m) {
        assert c in m.Values;
        var k :| k in m && m[k] == c;
        assert t[c] == k;
        assert k !in Inverse(m);
      } else {
        assert c in m;
      }
    }
  }

  /** The table is an involution without fixed points on the characters it maps. */
  lemma TableIsInvolution()
    ensures forall c | c in Table() :: Table()[c] in Table() && Table()[Table()[c]] == c && Table()[c] != c
  {
    ForwardIsInjective();
    InvolutionFromInverse(Forward());
  }

  /** The shifted counterpart of a key name; a name the table does not map is its own counterpart. */
  function Shift(name: string): string
  {
    if |name| == 1 && name[0] in Table() then [Table()[name[0]]] else name
  }

  /** Shifting twice gives the name back, and a mapped name never shifts to itself. */
  lemma ShiftInvolution(name: string)
    ensures Shift(Shift(name)) == name
    ensures Shift(name) == name <==> !(|name| == 1 && name[0] in Table())
  {
    var t := Table();
    if |name| == 1 && name[0] in t {
      var c := name[0];
      TableIsInvolution();
      assert t[c] in t && t[t[c]] == c && t[c] != c;
      assert Shift(name) == [t[c]];
      assert Shift([t[c]]) == [c];
      assert [c] == name;
    }
  }

  /** A pressed key: the name the input source reported and its shifted counterpart. */
  datatype Key = Key(key: string, shift: string)

  /** The Key a raw name is normalised to. */
  function MakeKey(name: string): Key
  {
    Key(name, Shift(name))
  }

  /** A key whose shift field is the table's counterpart of its name. */
  predicate Normalised(k: Key)
  {
    k.shift == Shift(k.key)
  }

  /** Key equality: the same name, or the other key's name is this key's shifted counterpart. */
  predicate Eq(a: Key, b: Key)
  {
    a.key == b.key || a.shift == b.key
  }

  /** Two normalised keys are equal exactly when the names agree or are each other's shift. */
  lemma EqIff(a: Key, b: Key)
    requires Normalised(a) && Normalised(b)
    ensures Eq(a, b) <==> b.key in {a.key, Shift(a.key)}
    ensures Eq(a, b) <==> Eq(b, a)
  {
    ShiftInvolution(a.key);
    ShiftInvolution(b.key);
  }

  /** On normalised keys, key equality is an equivalence relation. */
  lemma EqIsEquivalence(a: Key, b: Key, c: Key)
    requires Normalised(a) && Normalised(b) && Normalised(c)
    ensures Eq(a, a)
    ensures Eq(a, b) ==> Eq(b, a)
    ensures Eq(a, b) && Eq(b, c) ==> Eq(a, c)
  {
    EqIff(a, b);
    EqIff(b, c);
    ShiftInvolution(a.key);
  }

  /** Each forward pair appears in the finished table in both directions. */
  lemma TableExtendsForward(c: char)
    requires c in Forward()
    ensures c in Table() && Table()[c] == Forward()[c]
    ensures Forward()[c] in Table() && Table()[Forward()[c]] == c
  {
    ForwardIsInjective();
    InverseKeepsPair(Forward(), c);
  }

  /** A one-character name the table maps shifts to the mapped character. */
  lemma ShiftOfMapped(c: char)
    requires c in Table()
    ensures Shift([c]) == [Table()[c]]
  {
  }

  /** Updating with the inverse pairs leaves each original pair in place and adds its reverse. */
  lemma InverseKeepsPair(m: map<char, char>, c: char)
    requires Injective(m) && KeysAvoidValues(m) && c in m
    ensures (m + Inverse(m))[c] == m[c] && (m + Inverse(m))[m[c]] == c
  {
  }

  /** Sample pairs of the table, in both directions, and a name it does not map. */
  lemma ShiftExamples()
    ensures Shift("1") == "!" && Shift("!") == "1"
    ensures Shift("a") == "A" && Shift("A") == "a"
    ensures Shift("=") == "+" && Shift("+") == "="
    ensures Shift("ctrl") == "ctrl"
  {
    assert Forward()['1'] == '!' && Forward()['A'] == 'a' && Forward()['='] == '+';
    TableExtendsForward('1');
    TableExtendsForward('A');
    TableExtendsForward('=');
    ShiftOfMapped('1');
    ShiftOfMapped('!');
    ShiftOfMapped('A');
    ShiftOfMapped('a');
    ShiftOfMapped('=');
    ShiftOfMapped('+');
  }
}
