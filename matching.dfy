/** `match_company_symbol`: pairs each historical constituent row with the
    symbols found for its company by walking the constituents table in
    blocks of 100 rows and inner-joining each block with the symbols table
    on Company. Only whole blocks are walked. */
module Matching {

  /** A row of the historical constituents table (columns Date, Company). */
  datatype ConstituentRow = ConstituentRow(date: string, company: string)

  /** A row of the scraped symbols table (columns Company, Symbol). */
  datatype SymbolRow = SymbolRow(company: string, symbol: string)

  /** A row of the result (columns Date, Company, Symbol). */
  datatype MatchedRow = MatchedRow(date: string, company: string, symbol: string)

  /** Rows per block of the walk. */
  const BlockSize: nat := 100

  /** Number of leading rows the walk reads: the whole blocks. */
  function WalkedLength(n: nat): (walked: nat)
  {
    n / BlockSize * BlockSize
  }

  /** The walk reads at most the whole table and leaves fewer than a block
      unread. */
  lemma WalkedLengthBounds(n: nat)
    ensures WalkedLength(n) <= n && n - WalkedLength(n) < BlockSize
  {
  }

  lemma WalkedLengthStep(n: nat)
    requires n >= BlockSize
    ensures WalkedLength(n) == BlockSize + WalkedLength(n - BlockSize)
  {
    assert n / BlockSize == 1 + (n - BlockSize) / BlockSize;
  }

  /** The inner-merge rows one constituent row yields: one per symbols row of
      the same company, in symbols-table order. */
  function MergeRow(row: ConstituentRow, symbols: seq<SymbolRow>): (out: seq<MatchedRow>)
  {
    if symbols == [] then []
    else
      (if symbols[0].company == row.company
       then [MatchedRow(row.date, row.company, symbols[0].symbol)] else [])
      + MergeRow(row, symbols[1..])
  }

  /** A constituent row yields each (Company, Symbol) pair of its company as
      often as the symbols table holds it, and nothing else. */
  lemma {:induction false} MergeRowCounts(row: ConstituentRow, symbols: seq<SymbolRow>)
    ensures forall o :: multiset(MergeRow(row, symbols))[o]
                        == if o.date == row.date && o.company == row.company
                           then multiset(symbols)[SymbolRow(o.company, o.symbol)] else 0
  {
    if symbols != [] {
      MergeRowCounts(row, symbols[1..]);
      assert symbols == [symbols[0]] + symbols[1..];
    }
  }

  /** `pd.merge(block, symbols, on='Company')`: one output row for every
      (block row, symbols row) pair with equal Company. Rows are taken in
      block order and, for each, in symbols-table order. */
  function Merge(block: seq<ConstituentRow>, symbols: seq<SymbolRow>): (out: seq<MatchedRow>)
  {
    if block == [] then [] else MergeRow(block[0], symbols) + Merge(block[1..], symbols)
  }

  lemma CountStep(total: int, head: int, tail: int, n: int, first: int, rest: int, k: int)
    requires first == 0 || first == 1
    requires total == head + tail && head == (if first == 1 then k else 0)
    requires tail == rest * k && n == first + rest
    ensures total == n * k
  {
  }

  lemma MergeUnfold(block: seq<ConstituentRow>, symbols: seq<SymbolRow>, o: MatchedRow)
    requires block != []
    ensures multiset(Merge(block, symbols))[o]
            == multiset(MergeRow(block[0], symbols))[o] + multiset(Merge(block[1..], symbols))[o]
  {
  }

  lemma CountUnfold(block: seq<ConstituentRow>, c: ConstituentRow)
    requires block != []
    ensures multiset(block)[c] == (if block[0] == c then 1 else 0) + multiset(block[1..])[c]
  {
    assert block == [block[0]] + block[1..];
  }

  /** The count of one result row in a merge, by induction on the block. */
  lemma {:induction false} MergeCountOf(block: seq<ConstituentRow>, symbols: seq<SymbolRow>, o: MatchedRow)
    ensures multiset(Merge(block, symbols))[o]
            == multiset(block)[ConstituentRow(o.date, o.company)] as int
               * multiset(symbols)[SymbolRow(o.company, o.symbol)]
  {
    if block != [] {
      var c := ConstituentRow(o.date, o.company);
      var k := multiset(symbols)[SymbolRow(o.company, o.symbol)];
      MergeUnfold(block, symbols, o);
      MergeRowCounts(block[0], symbols);
      MergeCountOf(block[1..], symbols, o);
      CountUnfold(block, c);
      CountStep(multiset(Merge(block, symbols))[o], multiset(MergeRow(block[0], symbols))[o],
                multiset(Merge(block[1..], symbols))[o], multiset(block)[c],
                if block[0] == c then 1 else 0, multiset(block[1..])[c], k);
    }
  }

  /** A merged row occurs as often as its constituent row times its symbols
      row. */
  lemma MergeCounts(block: seq<ConstituentRow>, symbols: seq<SymbolRow>)
    ensures forall o :: multiset(Merge(block, symbols))[o]
                        == multiset(block)[ConstituentRow(o.date, o.company)] as int
                           * multiset(symbols)[SymbolRow(o.company, o.symbol)]
  {
    forall o
      ensures multiset(Merge(block, symbols))[o]
              == multiset(block)[ConstituentRow(o.date, o.company)] as int
                 * multiset(symbols)[SymbolRow(o.company, o.symbol)]
    {
      MergeCountOf(block, symbols, o);
    }
  }

  lemma {:induction false} MergeAppend(a: seq<ConstituentRow>, b: seq<ConstituentRow>, symbols: seq<SymbolRow>)
    ensures Merge(a + b, symbols) == Merge(a, symbols) + Merge(b, symbols)
  {
    if a == [] {
      assert a + b == b;
    } else {
      assert (a + b)[0] == a[0] && (a + b)[1..] == a[1..] + b;
      MergeAppend(a[1..], b, symbols);
    }
  }

  /** Reference definition of the walk: merge the first whole block, then
      walk the rest; a remainder shorter than a block yields nothing. */
  function ChunkedJoin(rows: seq<ConstituentRow>, symbols: seq<SymbolRow>): (out: seq<MatchedRow>)
    decreases |rows|
  {
    if |rows| < BlockSize then []
    else Merge(rows[..BlockSize], symbols) + ChunkedJoin(rows[BlockSize..], symbols)
  }

  /** The walk merges exactly the whole-block prefix of the table; fewer than
      100 rows give an empty result. */
  lemma {:induction false} ChunkedJoinIsMergeOfWalkedPrefix(rows: seq<ConstituentRow>, symbols: seq<SymbolRow>)
    ensures ChunkedJoin(rows, symbols) == Merge(rows[..WalkedLength(|rows|)], symbols)
    ensures |rows| < BlockSize ==> ChunkedJoin(rows, symbols) == []
    decreases |rows|
  {
    if |rows| >= BlockSize {
      var rest := rows[BlockSize..];
      ChunkedJoinIsMergeOfWalkedPrefix(rest, symbols);
      WalkedLengthStep(|rows|);
      assert rows[..WalkedLength(|rows|)] == rows[..BlockSize] + rest[..WalkedLength(|rest|)];
      MergeAppend(rows[..BlockSize], rest[..WalkedLength(|rest|)], symbols);
    }
  }

  /** Rows after the last whole block never reach the output: appending a
      partial block to a table of whole blocks changes nothing. */
  lemma TrailingPartialBlockIgnored(rows: seq<ConstituentRow>, tail: seq<ConstituentRow>, symbols: seq<SymbolRow>)
    requires |rows| % BlockSize == 0 && |tail| < BlockSize
    ensures ChunkedJoin(rows + tail, symbols) == ChunkedJoin(rows, symbols)
  {
    ChunkedJoinIsMergeOfWalkedPrefix(rows + tail, symbols);
    ChunkedJoinIsMergeOfWalkedPrefix(rows, symbols);
    assert |rows| == |rows| / BlockSize * BlockSize;
    assert WalkedLength(|rows + tail|) == |rows|;
    assert (rows + tail)[..|rows|] == rows == rows[..WalkedLength(|rows|)];
  }

  /** Block order: the output of the first k blocks precedes, unchanged, the
      output of the blocks after them. */
  lemma {:induction false} BlocksInOrder(rows: seq<ConstituentRow>, symbols: seq<SymbolRow>, k: nat)
    requires k * BlockSize <= |rows|
    ensures ChunkedJoin(rows, symbols)
         == ChunkedJoin(rows[..k * BlockSize], symbols) + ChunkedJoin(rows[k * BlockSize..], symbols)
  {
    if k > 0 {
      var rest := rows[BlockSize..];
      BlocksInOrder(rest, symbols, k - 1);
      var prefix := rows[..k * BlockSize];
      assert prefix[..BlockSize] == rows[..BlockSize];
      assert prefix[BlockSize..] == rest[..(k - 1) * BlockSize];
      assert rows[k * BlockSize..] == rest[(k - 1) * BlockSize..];
    } else {
      assert rows[..0] == [] && rows[0..] == rows;
    }
  }

  /** What the walk yields, row by row: a result row occurs as many times as
      its (Date, Company) occurs among the walked rows times its (Company,
      Symbol) occurs among the symbols; so every result row pairs a walked
      constituent row with a symbols row of the same company, a walked row
      whose company has k symbols rows contributes k rows, and one with no
      match contributes none. */
  lemma JoinMultiplicity(rows: seq<ConstituentRow>, symbols: seq<SymbolRow>)
    ensures forall o :: multiset(ChunkedJoin(rows, symbols))[o]
                        == multiset(rows[..WalkedLength(|rows|)])[ConstituentRow(o.date, o.company)] as int
                           * multiset(symbols)[SymbolRow(o.company, o.symbol)]
    ensures forall o :: o in ChunkedJoin(rows, symbols) ==>
                          ConstituentRow(o.date, o.company) in rows[..WalkedLength(|rows|)]
                          && SymbolRow(o.company, o.symbol) in symbols
  {
    ChunkedJoinIsMergeOfWalkedPrefix(rows, symbols);
    MergeCounts(rows[..WalkedLength(|rows|)], symbols);
  }

  lemma BlockFits(n: nat, i: nat)
    requires i <= n / BlockSize
    ensures i * BlockSize <= n
    ensures i < n / BlockSize ==> (i + 1) * BlockSize <= n
    ensures i == n / BlockSize ==> n - i * BlockSize < BlockSize
  {
  }

  /** The walk from row `from` on: one block, then the walk from the next. */
  lemma ChunkedJoinFrom(rows: seq<ConstituentRow>, symbols: seq<SymbolRow>, from: nat)
    requires from + BlockSize <= |rows|
    ensures ChunkedJoin(rows[from..], symbols)
         == Merge(rows[from..from + BlockSize], symbols) + ChunkedJoin(rows[from + BlockSize..], symbols)
  {
    var rest := rows[from..];
    assert rest[..BlockSize] == rows[from..from + BlockSize];
    assert rest[BlockSize..] == rows[from + BlockSize..];
  }

  /** `match_company_symbol`: for each whole block i, append the merge of
      rows i*100 .. (i+1)*100 to the accumulator. */
  method MatchCompanySymbol(constituents: seq<ConstituentRow>, symbols: seq<SymbolRow>)
    returns (matched: seq<MatchedRow>)
    ensures matched == ChunkedJoin(constituents, symbols)
  {
    matched := [];
    var blocks := |constituents| / BlockSize;
    for i := 0 to blocks
      invariant i * BlockSize <= |constituents|
      invariant matched + ChunkedJoin(constituents[i * BlockSize..], symbols)
             == ChunkedJoin(constituents, symbols)
    {
      var from := i * BlockSize;
      BlockFits(|constituents|, i);
      ChunkedJoinFrom(constituents, symbols, from);
      var merged := Merge(constituents[from..from + BlockSize], symbols);
      matched := matched + merged;
    }
    BlockFits(|constituents|, blocks);
  }

  // ---------------------------------------------------------------------------
  // The walk as evidently intended: every row, the last block possibly short

  /** A table of one whole block followed by one more row: the walk never
      reads that row, so its match is missing from the result, although a
      join of the whole table has it. */
  lemma TrailingRowDropped(block: seq<ConstituentRow>, row: ConstituentRow, symbol: string)
    requires |block| == BlockSize && row !in block
    ensures MatchedRow(row.date, row.company, symbol) !in ChunkedJoin(block + [row], [SymbolRow(row.company, symbol)])
    ensures MatchedRow(row.date, row.company, symbol) in Merge(block + [row], [SymbolRow(row.company, symbol)])
  {
    var rows, symbols := block + [row], [SymbolRow(row.company, symbol)];
    var o := MatchedRow(row.date, row.company, symbol);
    assert |rows| == BlockSize + 1;
    WalkedLengthStep(|rows|);
    assert WalkedLength(1) == 0;
    assert rows[..WalkedLength(|rows|)] == block;
    assert multiset(symbols)[SymbolRow(row.company, symbol)] == 1;
    assert ConstituentRow(o.date, o.company) == row;
    JoinMultiplicity(rows, symbols);
    assert multiset(ChunkedJoin(rows, symbols))[o] == multiset(block)[row] as int * 1;
    assert multiset(block)[row] == 0;
    MergeCounts(rows, symbols);
    assert multiset(Merge(rows, symbols))[o] == multiset(rows)[row] as int * 1;
    assert multiset(rows)[row] > 0;
  }

  /** Block-wise matching of every constituent row: blocks of 100 rows as
      before, then the remaining rows as one last, shorter block. The result
      is the join of the whole table. */
  method MatchAllCompanySymbols(constituents: seq<ConstituentRow>, symbols: seq<SymbolRow>)
    returns (matched: seq<MatchedRow>)
    ensures matched == Merge(constituents, symbols)
    ensures forall o :: multiset(matched)[o]
                        == multiset(constituents)[ConstituentRow(o.date, o.company)] as int
                           * multiset(symbols)[SymbolRow(o.company, o.symbol)]
  {
    matched := [];
    var done := 0;
    while done < |constituents|
      invariant done <= |constituents|
      invariant matched == Merge(constituents[..done], symbols)
      decreases |constituents| - done
    {
      var next := if done + BlockSize <= |constituents| then done + BlockSize else |constituents|;
      assert constituents[..next] == constituents[..done] + constituents[done..next];
      MergeAppend(constituents[..done], constituents[done..next], symbols);
      matched := matched + Merge(constituents[done..next], symbols);
      done := next;
    }
    assert constituents[..done] == constituents;
    MergeCounts(constituents, symbols);
  }
}
