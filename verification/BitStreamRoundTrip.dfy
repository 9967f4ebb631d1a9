/** What is written to a bit stream is what is read back (src/blockchain/Blockchain.cpp:69-148, 158-257). */
module BitStreamRoundTrip {
  import opened Words
  import opened BitOps
  import opened BitRows
  import opened BitStream

  datatype Item = Item(width: nat, value: u64)

  function ItemsBits(items: seq<Item>): seq<bool> {
    if items == [] then []
    else ItemsBits(items[..|items| - 1]) + Bits(items[|items| - 1].value, items[|items| - 1].width)
  }

  function TotalBits(items: seq<Item>): nat {
    if items == [] then 0 else TotalBits(items[..|items| - 1]) + items[|items| - 1].width
  }

  lemma {:induction false} ItemsBitsLength(items: seq<Item>)
    ensures |ItemsBits(items)| == TotalBits(items)
  {
    if items != [] {
      ItemsBitsLength(items[..|items| - 1]);
    }
  }

  lemma ItemsBitsAppend(items: seq<Item>, k: nat)
    requires k < |items|
    ensures ItemsBits(items[..k + 1]) == ItemsBits(items[..k]) + Bits(items[k].value, items[k].width)
  {
    assert items[..k + 1][..k] == items[..k];
  }

  /** Writes the items and flushes: their bits, padded to whole bytes with zero bits. */
  method WriteAll(items: seq<Item>) returns (output: seq<u8>)
    requires forall i :: 0 <= i < |items| ==> items[i].width < 64
    ensures |output| == (TotalBits(items) + 7) / 8
    ensures ItemsBits(items) <= BytesBits(output)
  {
    var writer := new BitWriter();
    for k := 0 to |items|
      invariant writer.Valid() && writer.Written() == ItemsBits(items[..k])
    {
      ItemsBitsAppend(items, k);
      writer.Write(items[k].width, items[k].value);
    }
    assert items[..|items|] == items;
    BytesBitsLength(writer.output);
    ItemsBitsLength(items);
    writer.Flush();
    output := writer.output;
    BytesBitsLength(output);
  }

  /** Reading the widths of some items from bits that begin with them gives their values, cut to the widths. */
  method ReadAll(data: seq<u8>, items: seq<Item>) returns (values: seq<u64>)
    requires forall i :: 0 <= i < |items| ==> items[i].width < 32
    requires ItemsBits(items) <= BytesBits(data)
    ensures |values| == |items|
    ensures forall i :: 0 <= i < |items| ==> values[i] == items[i].value % Pow2(items[i].width)
  {
    var reader := new BitReader(data);
    values := [];
    for k := 0 to |items|
      invariant reader.Valid() && |values| == k
      invariant ItemsBits(items[..k]) + reader.Remaining() == BytesBits(data)
      invariant forall i :: 0 <= i < k ==> values[i] == items[i].value % Pow2(items[i].width)
    {
      Ahead(items, k, reader.Remaining(), BytesBits(data));
      var value := reader.Read(items[k].width);
      SameBitsSameValue(value, items[k].value, items[k].width);
      values := values + [value];
    }
  }

  lemma {:induction false} PrefixOfItems(items: seq<Item>, k: nat)
    requires k <= |items|
    ensures ItemsBits(items[..k]) <= ItemsBits(items)
    decreases |items| - k
  {
    if k == |items| {
      assert items[..k] == items;
    } else {
      PrefixOfItems(items, k + 1);
      ItemsBitsAppend(items, k);
    }
  }

  /** With the first k items read, the bits of the next come next. */
  lemma Ahead(items: seq<Item>, k: nat, rest: seq<bool>, all: seq<bool>)
    requires k < |items| && ItemsBits(items) <= all && ItemsBits(items[..k]) + rest == all
    ensures var w := items[k].width;
            w <= |rest| && rest[..w] == Bits(items[k].value, w) && ItemsBits(items[..k + 1]) + rest[w..] == all
  {
    PrefixOfItems(items, k + 1);
    ItemsBitsAppend(items, k);
    SkipPrefix(ItemsBits(items[..k]), Bits(items[k].value, items[k].width), rest, all);
  }

  lemma SkipPrefix(done: seq<bool>, next: seq<bool>, rest: seq<bool>, all: seq<bool>)
    requires done + rest == all && done + next <= all
    ensures |next| <= |rest| && rest[..|next|] == next && done + next + rest[|next|..] == all
  {
    assert rest == all[|done|..];
    forall i | 0 <= i < |next|
      ensures rest[i] == next[i]
    {
      assert all[|done| + i] == (done + next)[|done| + i];
    }
  }

  lemma SameBitsSameValue(x: nat, y: nat, n: nat)
    requires Bits(x, n) == Bits(y, n) && Fits(x, n)
    ensures x == y % Pow2(n)
  {
    ValueOfBits(x, n);
    ValueOfBits(y, n);
    LowOfSmall(x, n);
    LowIsMod(y, n);
  }

  /** Writing any list of widths and values, flushing, and reading the same widths. */
  method RoundTrip(items: seq<Item>) returns (output: seq<u8>, values: seq<u64>)
    requires forall i :: 0 <= i < |items| ==> items[i].width < 32
    ensures |output| == (TotalBits(items) + 7) / 8
    ensures |values| == |items|
    ensures forall i :: 0 <= i < |items| ==> values[i] == items[i].value % Pow2(items[i].width)
  {
    output := WriteAll(items);
    values := ReadAll(output, items);
  }
}
