/** The tables of a set-associative cache between a slave memory and the flat memory it
    stands for, and what each elementary update keeps.  Addresses are records of their bit
    slices; a line index is the concatenation {set, way}. */
module CacheCoherence {
  import opened CacheWord

  datatype Line = Line(idx: nat, way: nat)

  datatype WordAddr = WordAddr(tag: nat, idx: nat, word: nat)

  type Memory = imap<WordAddr, Word>

  ghost predicate Total(m: Memory) { forall a: WordAddr :: a in m }

  datatype Geometry = Geometry(sets: nat, ways: nat, lineWords: nat) {
    predicate Proper() { sets > 0 && ways > 0 && lineWords > 0 }

    predicate InRange(l: Line) { l.idx < sets && l.way < ways }

    predicate Addressable(a: WordAddr) { a.idx < sets && a.word < lineWords }
  }

  datatype Tables = Tables(valid: map<Line, bool>, dirty: map<Line, bool>, tags: map<Line, nat>,
                           data: map<(Line, nat), Word>)

  /** At most one line is out of service: the one being filled. */
  datatype Service = All | Except(line: Line)

  ghost predicate Shaped(g: Geometry, t: Tables) {
    && (forall l: Line :: g.InRange(l) ==> l in t.valid && l in t.dirty && l in t.tags)
    && (forall l: Line, w: nat :: g.InRange(l) && w < g.lineWords ==> (l, w) in t.data)
  }

  /** Line l answers for address a. */
  ghost predicate Owner(g: Geometry, t: Tables, x: Service, l: Line, a: WordAddr)
    requires Shaped(g, t)
  {
    g.InRange(l) && g.Addressable(a) && l.idx == a.idx && t.valid[l] && t.tags[l] == a.tag && x != Except(l)
  }

  ghost predicate UniqueTags(g: Geometry, t: Tables, x: Service)
    requires Shaped(g, t)
  {
    forall l, l', a :: Owner(g, t, x, l, a) && Owner(g, t, x, l', a) ==> l == l'
  }

  /** Owned words are the flat memory's words. */
  ghost predicate OwnedIsFlat(g: Geometry, t: Tables, x: Service, flat: Memory)
    requires Shaped(g, t) && Total(flat)
  {
    forall l, a :: Owner(g, t, x, l, a) ==> t.data[(l, a.word)] == flat[a]
  }

  /** The slave is stale only under a dirty line. */
  ghost predicate StaleIsDirty(g: Geometry, t: Tables, x: Service, mem: Memory, flat: Memory)
    requires Shaped(g, t) && Total(mem) && Total(flat)
  {
    forall a :: flat[a] == mem[a] || exists l :: Owner(g, t, x, l, a) && t.dirty[l]
  }

  ghost predicate DirtyIsValid(g: Geometry, t: Tables)
    requires Shaped(g, t)
  {
    forall l :: g.InRange(l) && t.dirty[l] ==> t.valid[l]
  }

  ghost predicate Coherent(g: Geometry, t: Tables, x: Service, mem: Memory, flat: Memory) {
    && g.Proper() && Shaped(g, t) && Total(mem) && Total(flat)
    && UniqueTags(g, t, x) && OwnedIsFlat(g, t, x, flat) && StaleIsDirty(g, t, x, mem, flat) && DirtyIsValid(g, t)
  }

  /** No line in service answers for this tag. */
  ghost predicate Absent(g: Geometry, t: Tables, x: Service, idx: nat, tag: nat)
    requires Shaped(g, t)
  {
    forall l :: g.InRange(l) && l.idx == idx && t.valid[l] && x != Except(l) ==> t.tags[l] != tag
  }

  /** A store into an owned word. */
  lemma StoreKeeps(g: Geometry, t: Tables, mem: Memory, flat: Memory, l: Line, a: WordAddr, v: Word)
    requires Coherent(g, t, All, mem, flat) && Owner(g, t, All, l, a)
    ensures Coherent(g, t.(data := t.data[(l, a.word) := v], dirty := t.dirty[l := true]), All, mem, flat[a := v])
  {
    var t' := t.(data := t.data[(l, a.word) := v], dirty := t.dirty[l := true]);
    var flat' := flat[a := v];
    assert forall m, b :: Owner(g, t', All, m, b) == Owner(g, t, All, m, b);
    forall b
      ensures flat'[b] == mem[b] || exists m :: Owner(g, t', All, m, b) && t'.dirty[m]
    {
      if b == a {
        assert Owner(g, t', All, l, b);
      } else if flat[b] != mem[b] {
        var m :| Owner(g, t, All, m, b) && t.dirty[m];
        assert Owner(g, t', All, m, b);
      }
    }
  }

  /** Taking a clean line out of service. */
  lemma ExcludeKeeps(g: Geometry, t: Tables, mem: Memory, flat: Memory, l: Line)
    requires Coherent(g, t, All, mem, flat) && g.InRange(l) && !t.dirty[l]
    ensures Coherent(g, t, Except(l), mem, flat)
  {
    assert forall m, b :: Owner(g, t, Except(l), m, b) == (Owner(g, t, All, m, b) && m != l);
    forall b
      ensures flat[b] == mem[b] || exists m :: Owner(g, t, Except(l), m, b) && t.dirty[m]
    {
      if flat[b] != mem[b] {
        var m :| Owner(g, t, All, m, b) && t.dirty[m];
        assert Owner(g, t, Except(l), m, b);
      }
    }
  }

  /** Writing one owned word back to the slave. */
  lemma WriteBackKeeps(g: Geometry, t: Tables, mem: Memory, flat: Memory, l: Line, a: WordAddr)
    requires Coherent(g, t, All, mem, flat) && Owner(g, t, All, l, a)
    ensures Coherent(g, t, All, mem[a := t.data[(l, a.word)]], flat)
  {
    var mem' := mem[a := t.data[(l, a.word)]];
    forall b
      ensures flat[b] == mem'[b] || exists m :: Owner(g, t, All, m, b) && t.dirty[m]
    {
      if b != a {
        assert mem'[b] == mem[b];
      }
    }
  }

  /** Marking clean a line whose words are all in the slave. */
  lemma CleanKeeps(g: Geometry, t: Tables, mem: Memory, flat: Memory, l: Line)
    requires Coherent(g, t, All, mem, flat) && g.InRange(l) && t.valid[l]
    requires forall w: nat :: w < g.lineWords ==> mem[WordAddr(t.tags[l], l.idx, w)] == t.data[(l, w)]
    ensures Coherent(g, t.(dirty := t.dirty[l := false]), All, mem, flat)
  {
    var t' := t.(dirty := t.dirty[l := false]);
    assert forall m, b :: Owner(g, t', All, m, b) == Owner(g, t, All, m, b);
    forall b
      ensures flat[b] == mem[b] || exists m :: Owner(g, t', All, m, b) && t'.dirty[m]
    {
      if flat[b] != mem[b] {
        var m :| Owner(g, t, All, m, b) && t.dirty[m];
        assert b == WordAddr(t.tags[m], m.idx, b.word);
        assert Owner(g, t', All, m, b);
      }
    }
  }

  /** Writing into the line out of service. */
  lemma FillKeeps(g: Geometry, t: Tables, mem: Memory, flat: Memory, l: Line, w: nat, v: Word)
    requires Coherent(g, t, Except(l), mem, flat) && g.InRange(l) && w < g.lineWords
    ensures Coherent(g, t.(data := t.data[(l, w) := v]), Except(l), mem, flat)
  {
    var t' := t.(data := t.data[(l, w) := v]);
    assert forall m, b :: Owner(g, t', Except(l), m, b) == Owner(g, t, Except(l), m, b);
    forall b
      ensures flat[b] == mem[b] || exists m :: Owner(g, t', Except(l), m, b) && t'.dirty[m]
    {
      if flat[b] != mem[b] {
        var m :| Owner(g, t, Except(l), m, b) && t.dirty[m];
        assert Owner(g, t', Except(l), m, b);
      }
    }
  }

  /** An address no line in service answers for reads the slave. */
  lemma AbsentIsFresh(g: Geometry, t: Tables, x: Service, mem: Memory, flat: Memory, a: WordAddr)
    requires Coherent(g, t, x, mem, flat) && Absent(g, t, x, a.idx, a.tag)
    ensures flat[a] == mem[a]
  {
    assert StaleIsDirty(g, t, x, mem, flat);
  }

  /** The tables once a filled line enters service. */
  function Installed(t: Tables, l: Line, tag: nat, isWrite: bool): Tables {
    t.(valid := t.valid[l := true], tags := t.tags[l := tag], dirty := t.dirty[l := isWrite])
  }

  /** The line enters service holding the slave's words, except that a write-allocate has
      merged v into word a: the flat memory changes at a and nowhere else. */
  lemma InstallKeeps(g: Geometry, t: Tables, mem: Memory, flat: Memory, l: Line, a: WordAddr, isWrite: bool, v: Word)
    requires Coherent(g, t, Except(l), mem, flat) && g.InRange(l) && g.Addressable(a) && l.idx == a.idx
    requires Absent(g, t, Except(l), a.idx, a.tag)
    requires forall w: nat :: w < g.lineWords ==>
               t.data[(l, w)] == if isWrite && w == a.word then v else mem[WordAddr(a.tag, a.idx, w)]
    ensures Coherent(g, Installed(t, l, a.tag, isWrite), All, mem, if isWrite then flat[a := v] else flat)
  {
    var t', flat' := Installed(t, l, a.tag, isWrite), if isWrite then flat[a := v] else flat;
    assert forall m, b :: m != l ==> Owner(g, t', All, m, b) == Owner(g, t, Except(l), m, b);
    forall b | Owner(g, t', All, l, b)
      ensures t'.data[(l, b.word)] == flat'[b]
    {
      AbsentIsFresh(g, t, Except(l), mem, flat, b);
    }
    forall b
      ensures flat'[b] == mem[b] || exists m :: Owner(g, t', All, m, b) && t'.dirty[m]
    {
      if isWrite && b == a {
        assert Owner(g, t', All, l, b);
      } else if flat[b] != mem[b] {
        var m :| Owner(g, t, Except(l), m, b) && t.dirty[m];
        assert Owner(g, t', All, m, b);
      }
    }
  }

  /** Once no line is dirty, the slave is the flat memory. */
  lemma CleanIsFlat(g: Geometry, t: Tables, mem: Memory, flat: Memory)
    requires Coherent(g, t, All, mem, flat)
    requires forall l :: g.InRange(l) ==> !t.dirty[l]
    ensures mem == flat
  {
    assert forall a :: flat[a] == mem[a];
  }
}
