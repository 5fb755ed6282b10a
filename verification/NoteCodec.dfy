/** The secret note's text form: `sndo_<pool>_<denomination>_<nullifier><secret>`. */
module NoteCodec {
  import opened Field
  import opened Hex

  const NOTE_PREFIX: string := "sndo_"

  datatype Note<A> = Note(pool: A, denomination: nat, nullifier: nat, secret: nat)

  datatype DecodeError = WrongPrefix | WrongParts | BadPool | BadDenomination | BadPreimage | OutOfField

  datatype Decoded<A> = Ok(note: Note<A>) | Err(error: DecodeError)

  /** Base58 addresses, as a pair of functions. */
  datatype Base58<!A> = Base58(write: A -> string, read: string -> Option<A>)

  /** Reading and writing are mutually inverse, and no address contains the separator. */
  ghost predicate Bijective<A(!new)>(b58: Base58<A>) {
    && (forall a: A :: b58.read(b58.write(a)) == Some(a) && '_' !in b58.write(a))
    && (forall s: string :: b58.read(s).Some? ==> b58.write(b58.read(s).value) == s)
  }

  /** JavaScript's `split` on a one-character separator. */
  function Split(s: string, c: char): (parts: seq<string>)
    ensures |parts| > 0
  {
    if s == "" then [""]
    else
      var rest := Split(s[1..], c);
      if s[0] == c then [""] + rest else [[s[0]] + rest[0]] + rest[1..]
  }

  function Join(parts: seq<string>, c: char): string
    requires |parts| > 0
  {
    if |parts| == 1 then parts[0] else parts[0] + [c] + Join(parts[1..], c)
  }

  lemma {:induction false} JoinUndoesSplit(s: string, c: char)
    ensures Join(Split(s, c), c) == s
    ensures forall p :: p in Split(s, c) ==> c !in p
  {
    if s != "" {
      JoinUndoesSplit(s[1..], c);
      var rest := Split(s[1..], c);
      var parts := Split(s, c);
      assert s == [s[0]] + s[1..];
      if s[0] == c {
        assert parts[1..] == rest;
      } else if |rest| > 1 {
        assert parts[1..] == rest[1..];
        assert Join(parts, c) == [s[0]] + rest[0] + [c] + Join(rest[1..], c);
      }
    }
  }

  /** A piece without separators, then a separator: the piece is split off. */
  lemma {:induction false} SplitHead(piece: string, rest: string, c: char)
    requires c !in piece
    ensures Split(piece + [c] + rest, c) == [piece] + Split(rest, c)
  {
    var s := piece + [c] + rest;
    if piece == "" {
      assert s[1..] == rest;
    } else {
      SplitHead(piece[1..], rest, c);
      assert s[1..] == piece[1..] + [c] + rest;
      assert [piece[0]] + piece[1..] == piece;
    }
  }

  lemma {:induction false} SplitLast(piece: string, c: char)
    requires c !in piece
    ensures Split(piece, c) == [piece]
  {
    if piece != "" {
      SplitLast(piece[1..], c);
      assert [piece[0]] + piece[1..] == piece;
    }
  }

  lemma SplitThree(a: string, b: string, d: string, c: char)
    requires c !in a && c !in b && c !in d
    ensures Split(a + [c] + (b + [c] + d), c) == [a, b, d]
  {
    SplitHead(a, b + [c] + d, c);
    SplitHead(b, d, c);
    SplitLast(d, c);
  }

  lemma JoinThree(parts: seq<string>, c: char)
    requires |parts| == 3
    ensures Join(parts, c) == parts[0] + [c] + (parts[1] + [c] + parts[2])
  {
    var tail := parts[1..];
    assert tail[1..] == [parts[2]];
    assert Join(tail[1..], c) == parts[2];
    assert Join(tail, c) == parts[1] + [c] + parts[2];
  }

  function Preimage<A>(note: Note<A>): string { Fixed(note.nullifier, 64) + Fixed(note.secret, 64) }

  function EncodeNote<A>(b58: Base58<A>, note: Note<A>): string {
    NOTE_PREFIX + (b58.write(note.pool) + ['_'] + (Fixed(note.denomination, 16) + ['_'] + Preimage(note)))
  }

  function DecodeNote<A>(b58: Base58<A>, encoded: string): Decoded<A> {
    if !(NOTE_PREFIX <= encoded) then Err(WrongPrefix)
    else
      var parts := Split(encoded[|NOTE_PREFIX|..], '_');
      if |parts| != 3 then Err(WrongParts)
      else
        var pool := b58.read(parts[0]);
        if pool.None? then Err(BadPool)
        else if |parts[1]| != 16 || !AllHex(parts[1]) then Err(BadDenomination)
        else if |parts[2]| != 128 || !AllHex(parts[2]) then Err(BadPreimage)
        else
          var nullifier := FromHex(parts[2][..64]);
          var secret := FromHex(parts[2][64..]);
          if nullifier >= FR || secret >= FR then Err(OutOfField)
          else Ok(Note(pool.value, FromHex(parts[1]), nullifier, secret))
  }

  /** The notes the protocol can hold: a 64-bit denomination and two field elements. */
  predicate ValidNote<A>(note: Note<A>) {
    note.denomination <= U64_MAX && note.nullifier < FR && note.secret < FR
  }

  lemma HexHasNoSeparator(s: string)
    requires AllHex(s)
    ensures '_' !in s
  {
    assert forall i :: 0 <= i < |s| ==> IsHexDigit(s[i]);
  }

  lemma PreimageIsHex<A>(note: Note<A>)
    requires ValidNote(note)
    ensures AllHex(Preimage(note)) && |Preimage(note)| == 128
    ensures Preimage(note)[..64] == Fixed(note.nullifier, 64) && FromHex(Preimage(note)[..64]) == note.nullifier
    ensures Preimage(note)[64..] == Fixed(note.secret, 64) && FromHex(Preimage(note)[64..]) == note.secret
  {
    Pow16Values();
    FixedIsBijective(note.nullifier, "", 64);
    FixedIsBijective(note.secret, "", 64);
  }

  /** Decoding an encoded note gives it back. */
  lemma DecodeEncode<A(!new)>(b58: Base58<A>, note: Note<A>)
    requires Bijective(b58) && ValidNote(note)
    ensures DecodeNote(b58, EncodeNote(b58, note)) == Ok(note)
  {
    var denomination := Fixed(note.denomination, 16);
    assert AllHex(denomination) && |denomination| == 16 && FromHex(denomination) == note.denomination by {
      Pow16Values();
      FixedIsBijective(note.denomination, "", 16);
    }
    PreimageIsHex(note);
    HexHasNoSeparator(denomination);
    HexHasNoSeparator(Preimage(note));
    SplitThree(b58.write(note.pool), denomination, Preimage(note), '_');
    var body := b58.write(note.pool) + ['_'] + (denomination + ['_'] + Preimage(note));
    assert EncodeNote(b58, note) == NOTE_PREFIX + body;
    assert (NOTE_PREFIX + body)[|NOTE_PREFIX|..] == body;
  }

  lemma PreimageFromText<A>(note: Note<A>, text: string)
    requires |text| == 128 && AllHex(text)
    requires note.nullifier == FromHex(text[..64]) && note.secret == FromHex(text[64..])
    ensures Preimage(note) == text
  {
    var low, high := text[..64], text[64..];
    FixedIsBijective(0, low, 64);
    FixedIsBijective(0, high, 64);
    assert text == text[..64] + text[64..];
  }

  /** Whatever text is accepted is the one encoding of the note it decodes to, and that note is valid. */
  lemma EncodeDecode<A(!new)>(b58: Base58<A>, encoded: string)
    requires Bijective(b58) && DecodeNote(b58, encoded).Ok?
    ensures ValidNote(DecodeNote(b58, encoded).note)
    ensures EncodeNote(b58, DecodeNote(b58, encoded).note) == encoded
  {
    var body, note := encoded[|NOTE_PREFIX|..], DecodeNote(b58, encoded).note;
    var parts := Split(body, '_');
    JoinUndoesSplit(body, '_');
    JoinThree(parts, '_');
    PreimageFromText(note, parts[2]);
    Pow16Values();
    FixedIsBijective(0, parts[1], 16);
    assert encoded == NOTE_PREFIX + body;
  }

  /** Two accepted texts of the same note are the same text. */
  lemma AcceptedTextIsUnique<A(!new)>(b58: Base58<A>, s: string, t: string)
    requires Bijective(b58) && DecodeNote(b58, s).Ok? && DecodeNote(b58, s) == DecodeNote(b58, t)
    ensures s == t
  {
    EncodeDecode(b58, s);
    EncodeDecode(b58, t);
  }

  /** The text is spelled out: prefix, address, sixteen digits, and twice sixty-four with values in the field. */
  ghost predicate Spelled<A>(b58: Base58<A>, text: string, pool: string, denomination: string, nullifier: string,
                             secret: string)
  {
    && text == "sndo_" + pool + "_" + denomination + "_" + nullifier + secret
    && b58.read(pool).Some?
    && |denomination| == 16 && AllHex(denomination)
    && |nullifier| == 64 && AllHex(nullifier) && FromHex(nullifier) < FR
    && |secret| == 64 && AllHex(secret) && FromHex(secret) < FR
  }

  lemma Regrouped(a: string, b: string, c: string, d: string, e: string, f: string)
    ensures a + b + c + d + c + e + f == a + (b + c + (d + c + (e + f)))
  {}

  /** A text of that form is accepted, with the values its parts write. */
  lemma SpelledIsAccepted<A(!new)>(b58: Base58<A>, text: string, pool: string, denomination: string, nullifier: string,
                                   secret: string)
    requires Bijective(b58) && Spelled(b58, text, pool, denomination, nullifier, secret)
    ensures DecodeNote(b58, text) ==
      Ok(Note(b58.read(pool).value, FromHex(denomination), FromHex(nullifier), FromHex(secret)))
  {
    Pow16Values();
    FixedIsBijective(0, denomination, 16);
    FixedIsBijective(0, nullifier, 64);
    FixedIsBijective(0, secret, 64);
    var note := Note(b58.read(pool).value, FromHex(denomination), FromHex(nullifier), FromHex(secret));
    Regrouped("sndo_", pool, "_", denomination, nullifier, secret);
    DecodeEncode(b58, note);
  }

  /** And nothing else is. */
  lemma AcceptedIsSpelled<A(!new)>(b58: Base58<A>, text: string)
    returns (pool: string, denomination: string, nullifier: string, secret: string)
    requires Bijective(b58) && DecodeNote(b58, text).Ok?
    ensures Spelled(b58, text, pool, denomination, nullifier, secret)
  {
    var note := DecodeNote(b58, text).note;
    EncodeDecode(b58, text);
    Pow16Values();
    pool, denomination := b58.write(note.pool), Fixed(note.denomination, 16);
    nullifier, secret := Fixed(note.nullifier, 64), Fixed(note.secret, 64);
    FixedIsBijective(note.denomination, "", 16);
    FixedIsBijective(note.nullifier, "", 64);
    FixedIsBijective(note.secret, "", 64);
    Regrouped("sndo_", pool, "_", denomination, nullifier, secret);
  }
}
