/** The chaining layer: the strings given on the command line are flattened
    into one sequence of character codes, and the codes are folded through
    the CRC step, each result seeding the next step. */
module Chain {
  import opened Bits
  import opened CrcEngine

  /** The character codes of one string, `ord(char)` for each char in order. */
  function Codes(s: string): seq<nat>
  {
    seq(|s|, i requires 0 <= i < |s| => s[i] as nat)
  }

  /** The codes of all strings, strings in the order given. */
  function Flatten(data: seq<string>): seq<nat>
  {
    if data == [] then [] else Codes(data[0]) + Flatten(data[1..])
  }

  /** The number of characters in all strings together. */
  function TotalLength(data: seq<string>): nat
  {
    if data == [] then 0 else |data[0]| + TotalLength(data[1..])
  }

  /** Running CRC over codes, starting from crc: a left fold of the CRC step. */
  function Fold(codes: seq<nat>, poly: nat, crc: nat, width: nat): nat
  {
    if codes == [] then crc else Fold(codes[1..], poly, Crc(codes[0], poly, crc, width), width)
  }

  /** The value `process_queue(data, poly, initialCrc, width)` returns. */
  function QueueCrc(data: seq<string>, poly: nat, initialCrc: nat, width: nat): nat
  {
    Fold(Flatten(data), poly, initialCrc, width)
  }

  // ---------------------------------------------------------------------
  // Flattening

  /** One code per character: the flattened length is the total character count. */
  lemma {:induction false} FlattenLength(data: seq<string>)
    ensures |Flatten(data)| == TotalLength(data)
  {
    if data != [] {
      FlattenLength(data[1..]);
    }
  }

  /** Flattening distributes over concatenation of the string lists. */
  lemma {:induction false} FlattenAppend(a: seq<string>, b: seq<string>)
    ensures Flatten(a + b) == Flatten(a) + Flatten(b)
  {
    if a == [] {
      assert a + b == b;
    } else {
      assert (a + b)[1..] == a[1..] + b;
      FlattenAppend(a[1..], b);
    }
  }

  /** Nothing is flattened exactly when every string is empty. */
  lemma {:induction false} FlattenEmpty(data: seq<string>)
    ensures Flatten(data) == [] <==> forall i :: 0 <= i < |data| ==> data[i] == ""
  {
    if data != [] {
      FlattenEmpty(data[1..]);
      assert forall i :: 1 <= i < |data| ==> data[i] == data[1..][i - 1];
    }
  }

  // ---------------------------------------------------------------------
  // Folding

  /** Chaining: the CRC over a + b is the CRC over b seeded with the CRC over a. */
  lemma {:induction false} FoldAppend(a: seq<nat>, b: seq<nat>, poly: nat, crc: nat, width: nat)
    ensures Fold(a + b, poly, crc, width) == Fold(b, poly, Fold(a, poly, crc, width), width)
  {
    if a == [] {
      assert a + b == b;
    } else {
      assert (a + b)[0] == a[0] && (a + b)[1..] == a[1..] + b;
      FoldAppend(a[1..], b, poly, Crc(a[0], poly, crc, width), width);
    }
  }

  /** After at least one code the running CRC fits in width bits. */
  lemma {:induction false} FoldBound(codes: seq<nat>, poly: nat, crc: nat, width: nat)
    requires width >= 1 && codes != []
    ensures Fold(codes, poly, crc, width) <= Mask(width)
  {
    if |codes| == 1 {
      CrcBound(codes[0], poly, crc, width);
    } else {
      FoldBound(codes[1..], poly, Crc(codes[0], poly, crc, width), width);
    }
  }

  /** No characters at all (no strings, or only empty ones): the initial value comes back. */
  lemma QueueCrcOfNoCharacters(data: seq<string>, poly: nat, initialCrc: nat, width: nat)
    requires forall i :: 0 <= i < |data| ==> data[i] == ""
    ensures QueueCrc(data, poly, initialCrc, width) == initialCrc
  {
    FlattenEmpty(data);
  }

  /** Processing a + b equals processing b seeded with the result for a. */
  lemma QueueCrcAppend(a: seq<string>, b: seq<string>, poly: nat, initialCrc: nat, width: nat)
    ensures QueueCrc(a + b, poly, initialCrc, width)
         == QueueCrc(b, poly, QueueCrc(a, poly, initialCrc, width), width)
  {
    FlattenAppend(a, b);
    FoldAppend(Flatten(a), Flatten(b), poly, initialCrc, width);
  }

  /** Two one-character strings: two chained CRC steps, in order. */
  lemma QueueCrcTwoCharacters(x: char, y: char, poly: nat, initialCrc: nat, width: nat)
    ensures QueueCrc([[x], [y]], poly, initialCrc, width)
         == Crc(y as nat, poly, Crc(x as nat, poly, initialCrc, width), width)
  {
    var codes := [x as nat, y as nat];
    assert Flatten([[x], [y]]) == codes by {
      assert [[x], [y]][1..] == [[y]] && [[y]][1..] == [];
      assert Codes([x]) == [x as nat] && Codes([y]) == [y as nat];
      assert Flatten([[y]]) == Codes([y]) + Flatten([]);
    }
    assert codes[1..] == [y as nat] && codes[1..][1..] == [];
    var first := Crc(x as nat, poly, initialCrc, width);
    assert Fold(codes, poly, initialCrc, width) == Fold([y as nat], poly, first, width);
  }

  /** With width >= 1 and at least one character, the result fits in width bits. */
  lemma QueueCrcBound(data: seq<string>, poly: nat, initialCrc: nat, width: nat)
    requires width >= 1 && TotalLength(data) > 0
    ensures QueueCrc(data, poly, initialCrc, width) <= Mask(width)
  {
    FlattenLength(data);
    FoldBound(Flatten(data), poly, initialCrc, width);
  }

  // ---------------------------------------------------------------------
  // The code

  /** `prepare_data(data)`: append the code of every character of every string. */
  method PrepareData(data: seq<string>) returns (reducedData: seq<nat>)
    ensures reducedData == Flatten(data)
  {
    reducedData := [];
    for k := 0 to |data|
      invariant reducedData == Flatten(data[..k])
    {
      var word := data[k];
      for j := 0 to |word|
        invariant reducedData == Flatten(data[..k]) + Codes(word[..j])
      {
        assert Codes(word[..j + 1]) == Codes(word[..j]) + [word[j] as nat];
        reducedData := reducedData + [word[j] as nat];
      }
      assert word[..|word|] == word;
      assert data[..k + 1] == data[..k] + [word];
      FlattenAppend(data[..k], [word]);
      assert Flatten([word]) == Codes(word);
    }
    assert data[..|data|] == data;
  }

  /** `process_queue(data, poly, initial_crc, sizeof_input)`: flatten, then
      run each code through `embedded_crc`, the result seeding the next. */
  method ProcessQueue(data: seq<string>, poly: nat, initialCrc: nat, sizeofInput: nat) returns (crc: nat)
    ensures crc == QueueCrc(data, poly, initialCrc, sizeofInput)
    ensures TotalLength(data) == 0 ==> crc == initialCrc
    ensures sizeofInput >= 1 && TotalLength(data) > 0 ==> crc < Pow2(sizeofInput)
  {
    var codes := PrepareData(data);
    FlattenLength(data);
    crc := initialCrc;
    for k := 0 to |codes|
      invariant Fold(codes[k..], poly, crc, sizeofInput) == Fold(codes, poly, initialCrc, sizeofInput)
      invariant k == 0 ==> crc == initialCrc
      invariant k > 0 && sizeofInput >= 1 ==> crc < Pow2(sizeofInput)
    {
      assert codes[k..][1..] == codes[k + 1..];
      crc := EmbeddedCrc(codes[k], poly, crc, sizeofInput);
    }
  }
}
