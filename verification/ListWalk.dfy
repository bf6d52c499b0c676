// find_inode on the bytes of the disk. Its inner loop takes the first block of whatever it is in for a
// list node: of a directory, or of a file.

module ListWalks {
  import opened CString
  import opened Blocks
  import opened Layout
  import opened Options

  // ---------- Following links ----------

  predicate Closed(links: seq<nat>) { forall p :: 0 <= p < |links| ==> links[p] < |links| }

  function Orbit(links: seq<nat>, c: nat, n: nat): (p: nat)
    requires Closed(links) && c < |links|
    ensures p < |links|
    decreases n
  {
    if n == 0 then c else links[Orbit(links, c, n - 1)]
  }

  lemma {:induction false} OrbitShift(links: seq<nat>, c: nat, a: nat, b: nat, k: nat)
    requires Closed(links) && c < |links| && Orbit(links, c, a) == Orbit(links, c, b)
    ensures Orbit(links, c, a + k) == Orbit(links, c, b + k)
    decreases k
  {
    if k > 0 { OrbitShift(links, c, a, b, k - 1); }
  }

  ghost function Visited(links: seq<nat>, c: nat, n: nat): set<nat>
    requires Closed(links) && c < |links|
  {
    set m | 0 <= m < n :: Orbit(links, c, m)
  }

  // On the way to a place not met before nothing is met twice.
  lemma {:induction false} AllDifferent(links: seq<nat>, c: nat, n: nat, k: nat)
    requires Closed(links) && c < |links| && k <= n + 1
    requires forall m :: 0 <= m < n ==> Orbit(links, c, m) != Orbit(links, c, n)
    ensures |Visited(links, c, k)| == k
    decreases k
  {
    if k > 0 {
      AllDifferent(links, c, n, k - 1);
      forall m | 0 <= m < k - 1 ensures Orbit(links, c, m) != Orbit(links, c, k - 1) {
        if Orbit(links, c, m) == Orbit(links, c, k - 1) { OrbitShift(links, c, m, k - 1, n - (k - 1)); }
      }
      assert Visited(links, c, k) == Visited(links, c, k - 1) + {Orbit(links, c, k - 1)};
    }
  }

  // So the first visit to a place comes within as many steps as there are places.
  lemma FirstVisit(links: seq<nat>, c: nat, n: nat)
    requires Closed(links) && c < |links|
    requires forall m :: 0 <= m < n ==> Orbit(links, c, m) != Orbit(links, c, n)
    ensures n < |links|
  {
    AllDifferent(links, c, n, n + 1);
    Below(Visited(links, c, n + 1), |links|);
  }

  lemma {:induction false} Below(s: set<nat>, k: nat)
    requires forall p :: p in s ==> p < k
    ensures |s| <= k
    decreases k
  {
    if k == 0 {
      assert s == {};
    } else {
      Below(s - {k - 1}, k - 1);
      assert k - 1 in s ==> |s| == |s - {k - 1}| + 1;
      assert k - 1 !in s ==> s - {k - 1} == s;
    }
  }

  // ---------- The inner loop ----------

  // The list node and the inode in hand. A read past the end of the disk leaves them as they are.
  function NextCell(d: Image, cell: nat): (p: nat)
    requires cell < MAX_BLOCK
    ensures p < MAX_BLOCK
  {
    var x := Place(CellNext(Bytes(d[cell])));
    if x < MAX_BLOCK then x else cell
  }

  function NextInode(d: Image, cell: nat, inode: Block): Block
    requires cell < MAX_BLOCK
  {
    var i := Place(CellInode(Bytes(d[cell])));
    if i < MAX_BLOCK then d[i] else inode
  }

  // The list node in hand after n rounds from block c on.
  function CellAt(d: Image, c: nat, n: nat): (p: nat)
    requires c < MAX_BLOCK
    ensures p < MAX_BLOCK
    decreases n
  {
    if n == 0 then c else NextCell(d, CellAt(d, c, n - 1))
  }

  // The inode in hand then, inode being the one in hand at first.
  function InodeAt(d: Image, c: nat, inode: Block, n: nat): Block
    requires c < MAX_BLOCK
    decreases n
  {
    if n == 0 then inode else NextInode(d, CellAt(d, c, n - 1), InodeAt(d, c, inode, n - 1))
  }

  // How a round ends: at a block flagged 2, with a name found, in a comparison that leaves the block, or
  // in the next round.
  datatype Fate = Stop | Match | Stray | Pass

  function Compared(inode: Block, token: seq<byte>): Fate {
    var r := Bytes(inode);
    if FlagOf(r) == 0 then Pass
    else if Exhausts(r, 2, token) then Stray
    else if Holds(r, 2, token) then Match
    else Pass
  }

  function Judged(d: Image, cell: nat, inode: Block, token: seq<byte>): Fate
    requires cell < MAX_BLOCK
  {
    if FlagOf(Bytes(d[cell])) == 2 then Stop else Compared(NextInode(d, cell, inode), token)
  }

  function FateAt(d: Image, c: nat, inode: Block, token: seq<byte>, n: nat): Fate
    requires c < MAX_BLOCK
  {
    Judged(d, CellAt(d, c, n), InodeAt(d, c, inode, n), token)
  }

  // The loop gets as far as round n.
  ghost predicate GoesOn(d: Image, c: nat, inode: Block, token: seq<byte>, n: nat)
    requires c < MAX_BLOCK
  {
    forall m: nat :: m < n ==> FateAt(d, c, inode, token, m) == Pass
  }

  // It is over in round n.
  ghost predicate Over(d: Image, c: nat, inode: Block, token: seq<byte>, n: nat)
    requires c < MAX_BLOCK
  {
    GoesOn(d, c, inode, token, n) && FateAt(d, c, inode, token, n) != Pass
  }

  ghost predicate NeverOver(d: Image, c: nat, inode: Block, token: seq<byte>)
    requires c < MAX_BLOCK
  {
    forall n: nat :: FateAt(d, c, inode, token, n) == Pass
  }

  lemma OverOnce(d: Image, c: nat, inode: Block, token: seq<byte>, m: nat, n: nat)
    requires c < MAX_BLOCK && Over(d, c, inode, token, m) && Over(d, c, inode, token, n)
    ensures m == n
  {
  }

  lemma {:induction false} OverSome(d: Image, c: nat, inode: Block, token: seq<byte>, n: nat) returns (m: nat)
    requires c < MAX_BLOCK && FateAt(d, c, inode, token, n) != Pass
    ensures m <= n && Over(d, c, inode, token, m)
    decreases n
  {
    if k: nat :| k < n && FateAt(d, c, inode, token, k) != Pass {
      m := OverSome(d, c, inode, token, k);
    } else {
      m := n;
    }
  }

  // In which round the loop is over.
  ghost function LastRound(d: Image, c: nat, inode: Block, token: seq<byte>): (n: nat)
    requires c < MAX_BLOCK && !NeverOver(d, c, inode, token)
    ensures Over(d, c, inode, token, n)
  {
    assert exists n: nat :: Over(d, c, inode, token, n) by {
      var k: nat :| FateAt(d, c, inode, token, k) != Pass;
      var m := OverSome(d, c, inode, token, k);
    }
    var n: nat :| Over(d, c, inode, token, n);
    n
  }

  // ---------- The outer loop ----------

  // How the walk along the remaining components ends: with NULL, with an inode, never, or outside what it has
  // read.
  datatype Ending = NoInode | Found(inode: Block) | Endless | Astray

  // From the inode current, with the inode held in hand.
  ghost function PathEnding(d: Image, current: Block, held: Block, tokens: seq<seq<byte>>): Ending
    decreases |tokens|
  {
    if tokens == [] then Found(held)
    else
      var c := Place(InodeStart(Bytes(current)));
      if c >= MAX_BLOCK then Astray
      else if NeverOver(d, c, held, tokens[0]) then Endless
      else
        var n := LastRound(d, c, held, tokens[0]);
        match FateAt(d, c, held, tokens[0], n)
        case Stop => NoInode
        case Match =>
          var next := InodeAt(d, c, held, n + 1);
          PathEnding(d, next, next, tokens[1..])
        case _ => Astray
  }

  // One component, when the round in which its loop is over is known.
  lemma ComponentEnding(d: Image, current: Block, held: Block, tokens: seq<seq<byte>>, c: nat, n: nat)
    requires tokens != [] && c == Place(InodeStart(Bytes(current))) && c < MAX_BLOCK && Over(d, c, held, tokens[0], n)
    ensures PathEnding(d, current, held, tokens)
            == match FateAt(d, c, held, tokens[0], n)
               case Stop => NoInode
               case Match => PathEnding(d, InodeAt(d, c, held, n + 1), InodeAt(d, c, held, n + 1), tokens[1..])
               case _ => Astray
  {
    OverOnce(d, c, held, tokens[0], n, LastRound(d, c, held, tokens[0]));
  }

  // ---------- The code ----------

  // The test of the loop.
  method IsNamed(inode: Block, names: array<byte>, token: nat) returns (named: bool)
    requires token < names.Length && HasNul(names[..], token) && Compared(inode, TextAt(names[..], token)) != Stray
    ensures named <==> Compared(inode, TextAt(names[..], token)) == Match
  {
    if FlagOf(Bytes(inode)) == 0 { return false; }
    var order := Strcmp(Bytes(inode), 2, names[..], token);
    return order == 0;
  }

  // A round that is neither a stop nor astray: the next inode, and if it does not have the name, the next list
  // node.
  method Turn(dev: Device, ilist: Block, held: Block, names: array<byte>, token: nat, ghost cell: nat)
    returns (named: bool, node: Block, next: Block)
    requires dev.Valid() && token < names.Length && HasNul(names[..], token)
    requires cell < MAX_BLOCK && ilist == dev.View()[cell]
    requires var fate := Judged(dev.View(), cell, held, TextAt(names[..], token)); fate == Match || fate == Pass
    ensures next == NextInode(dev.View(), cell, held)
    ensures named <==> Judged(dev.View(), cell, held, TextAt(names[..], token)) == Match
    ensures !named ==> node == dev.View()[NextCell(dev.View(), cell)]
  {
    next := dev.Bread(CellInode(Bytes(ilist)), held);
    named := IsNamed(next, names, token);
    node := ilist;
    if !named { node := dev.Bread(CellNext(Bytes(ilist)), ilist); }
  }

  // Round k of a loop that is over in round n, by what is in hand.
  lemma RoundAt(d: Image, c: nat, inode: Block, token: seq<byte>, n: nat, k: nat, ilist: Block, held: Block)
    requires c < MAX_BLOCK && Over(d, c, inode, token, n) && k <= n
    requires ilist == d[CellAt(d, c, k)] && held == InodeAt(d, c, inode, k)
    ensures FlagOf(Bytes(ilist)) == 2 ==> k == n && FateAt(d, c, inode, token, n) == Stop
    ensures FlagOf(Bytes(ilist)) != 2 && FateAt(d, c, inode, token, n) != Stray ==>
              var fate := Judged(d, CellAt(d, c, k), held, token);
              if fate == Match then k == n && FateAt(d, c, inode, token, n) == Match else fate == Pass && k < n
  {
    assert FateAt(d, c, inode, token, k) == Judged(d, CellAt(d, c, k), held, token);
  }

  // The inner loop of find_inode, from any block on, when it is over in round n.
  method Lookup(dev: Device, start: nat, inode: Block, names: array<byte>, token: nat, ghost n: nat)
    returns (found: bool, next: Block)
    requires dev.Valid() && Place(start) < MAX_BLOCK && token < names.Length && HasNul(names[..], token)
    requires Over(dev.View(), Place(start), inode, TextAt(names[..], token), n)
    requires FateAt(dev.View(), Place(start), inode, TextAt(names[..], token), n) != Stray
    ensures found <==> FateAt(dev.View(), Place(start), inode, TextAt(names[..], token), n) == Match
    ensures found ==> next == InodeAt(dev.View(), Place(start), inode, n + 1)
  {
    ghost var d, c, t, k := dev.View(), Place(start), TextAt(names[..], token), 0;
    var ilist: Block := *;
    ilist := dev.Bread(start, ilist);
    next := inode;
    while FlagOf(Bytes(ilist)) != 2
      invariant k <= n && ilist == d[CellAt(d, c, k)] && next == InodeAt(d, c, inode, k)
      decreases n - k
    {
      RoundAt(d, c, inode, t, n, k, ilist, next);
      var named: bool;
      named, ilist, next := Turn(dev, ilist, next, names, token, CellAt(d, c, k));
      if named { return true, next; }
      k := k + 1;
    }
    RoundAt(d, c, inode, t, n, k, ilist, next);
    return false, next;
  }

  // Its first k rounds, when it goes on that long: the code is in the loop still.
  method Rounds(dev: Device, start: nat, inode: Block, names: array<byte>, token: nat, k: nat)
    returns (ilist: Block, next: Block)
    requires dev.Valid() && Place(start) < MAX_BLOCK && token < names.Length && HasNul(names[..], token)
    requires GoesOn(dev.View(), Place(start), inode, TextAt(names[..], token), k)
    ensures ilist == dev.View()[CellAt(dev.View(), Place(start), k)]
    ensures next == InodeAt(dev.View(), Place(start), inode, k)
  {
    ghost var d, c, t := dev.View(), Place(start), TextAt(names[..], token);
    ilist := *;
    ilist := dev.Bread(start, ilist);
    next := inode;
    for i := 0 to k
      invariant ilist == d[CellAt(d, c, i)] && next == InodeAt(d, c, inode, i)
    {
      assert FateAt(d, c, inode, t, i) == Pass;
      var named: bool;
      named, ilist, next := Turn(dev, ilist, next, names, token, CellAt(d, c, i));
    }
  }

  ghost predicate Returns(e: Ending) { e.NoInode? || e.Found? }

  // One turn of the outer loop up to the next token.
  method Component(dev: Device, current: Block, held: Block, names: array<byte>, token: nat,
                   ghost tokens: seq<seq<byte>>)
    returns (found: bool, next: Block)
    requires dev.Valid() && token < names.Length && HasNul(names[..], token)
    requires tokens != [] && TextAt(names[..], token) == tokens[0]
    requires Returns(PathEnding(dev.View(), current, held, tokens))
    ensures PathEnding(dev.View(), current, held, tokens)
            == if found then PathEnding(dev.View(), next, next, tokens[1..]) else NoInode
  {
    ghost var c := Place(InodeStart(Bytes(current)));
    ghost var n := LastRound(dev.View(), c, held, tokens[0]);
    found, next := Lookup(dev, InodeStart(Bytes(current)), held, names, token, n);
  }

  // find_inode from the copy of the path on; junk is what the stack holds for the next directory. NULL exactly
  // when the walk over the bytes ends so.
  method WalkPath(dev: Device, root: Block, junk: Block, path: text) returns (res: Option<Block>)
    requires dev.Valid() && Returns(PathEnding(dev.View(), root, junk, Components(path)))
    ensures match PathEnding(dev.View(), root, junk, Components(path))
            case NoInode => res == None
            case Found(inode) => res == Some(inode)
            case _ => false
  {
    ghost var d, e, todo := dev.View(), PathEnding(dev.View(), root, junk, Components(path)), Components(path);
    var current, next := root, junk;
    var tok := new Tokenizer(path);
    assert tok.Pending(0, DELIM) == todo;
    var token := tok.Strtok(0, DELIM);
    while token != NULL
      invariant tok.Valid() && fresh(tok) && fresh(tok.buf) && tok.Gives(token, todo, DELIM) && dev.View() == d
      invariant PathEnding(d, current, next, todo) == e
      decreases |todo|
    {
      var found: bool;
      found, next := Component(dev, current, next, tok.buf, token, todo);
      if !found {
        return None;
      }
      token := tok.Strtok(NULL, DELIM);
      todo := todo[1..];
      if token != NULL {
        current := next;
      }
    }
    return Some(next);
  }

  // ---------- How long it takes ----------

  // A list node and an inode in hand as one number: inode 2048 is the one in hand at first.
  const PAIRS := 2048 * 2049

  function Hand(d: Image, inode: Block, h: nat): Block { if h < MAX_BLOCK then d[h] else inode }

  function NextPair(d: Image, x: nat): (y: nat)
    requires x < PAIRS
    ensures y < PAIRS
  {
    var cell, h := x % 2048, x / 2048;
    var i := Place(CellInode(Bytes(d[cell])));
    NextCell(d, cell) + 2048 * (if i < MAX_BLOCK then i else h)
  }

  function Pairs(d: Image): (r: seq<nat>)
    ensures |r| == PAIRS && Closed(r)
    ensures forall x :: 0 <= x < PAIRS ==> r[x] == NextPair(d, x)
  {
    seq(PAIRS, x requires 0 <= x < PAIRS => NextPair(d, x))
  }

  lemma PairStep(d: Image, inode: Block, x: nat, held: Block)
    requires x < PAIRS && Hand(d, inode, x / 2048) == held
    ensures var y := NextPair(d, x);
            y % 2048 == NextCell(d, x % 2048) && Hand(d, inode, y / 2048) == NextInode(d, x % 2048, held)
  {
  }

  lemma {:induction false} PairAt(d: Image, c: nat, inode: Block, n: nat)
    requires c < MAX_BLOCK
    ensures var x := Orbit(Pairs(d), c + 2048 * 2048, n);
            x < PAIRS && x % 2048 == CellAt(d, c, n) && Hand(d, inode, x / 2048) == InodeAt(d, c, inode, n)
    decreases n
  {
    if n > 0 {
      PairAt(d, c, inode, n - 1);
      PairStep(d, inode, Orbit(Pairs(d), c + 2048 * 2048, n - 1), InodeAt(d, c, inode, n - 1));
    }
  }

  // A loop that is over at all is over within as many rounds as there are pairs.
  lemma OverSoon(d: Image, c: nat, inode: Block, token: seq<byte>, n: nat)
    requires c < MAX_BLOCK && Over(d, c, inode, token, n)
    ensures n < PAIRS
  {
    var links, x := Pairs(d), c + 2048 * 2048;
    forall m | 0 <= m < n ensures Orbit(links, x, m) != Orbit(links, x, n) {
      PairAt(d, c, inode, m);
      PairAt(d, c, inode, n);
      assert FateAt(d, c, inode, token, m) == Pass;
    }
    FirstVisit(links, x, n);
  }

  // So looking at that many rounds tells whether it ever is.
  lemma NeverOverSoon(d: Image, c: nat, inode: Block, token: seq<byte>)
    requires c < MAX_BLOCK
    ensures NeverOver(d, c, inode, token) <==> GoesOn(d, c, inode, token, PAIRS)
  {
    if !NeverOver(d, c, inode, token) {
      var n := LastRound(d, c, inode, token);
      OverSoon(d, c, inode, token, n);
    }
  }

  // ---------- Through a file of zeros ----------

  // A block of data that starts with zeros is taken for a list node without a name, followed by block
  // 0, and block 0 for one followed by itself: no round leaves the loop.
  lemma ThroughFile(d: Image, c: nat, inode: Block, token: text)
    requires d[0].Super? && token != []
    requires c < MAX_BLOCK && d[c].Data? && forall i :: 0 <= i < 31 ==> d[c].bytes[i] == 0
    ensures NeverOver(d, c, inode, token)
  {
    ZeroFields(d[c]);
    SuperFields(d[0]);
    forall n: nat ensures FateAt(d, c, inode, token, n) == Pass {
      AtSuper(d, c, n);
      NotNamed(d[0], token);
    }
  }

  // Block 0 as an inode has the empty name.
  lemma NotNamed(b: Block, token: text)
    requires b.Super? && token != []
    ensures Compared(b, token) == Pass
  {
    var r := Bytes(b);
    SuperFields(b);
    NulStops(r, 2, token);
    HoldsText(r, 2, token);
  }

  lemma {:induction false} AtSuper(d: Image, c: nat, n: nat)
    requires d[0].Super? && c < MAX_BLOCK && d[c].Data? && forall i :: 0 <= i < 31 ==> d[c].bytes[i] == 0
    ensures CellAt(d, c, n) == if n == 0 then c else 0
    decreases n
  {
    ZeroFields(d[c]);
    SuperFields(d[0]);
    if n > 0 { AtSuper(d, c, n - 1); }
  }
}
