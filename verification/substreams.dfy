/** Conservation of substreams: whatever is read inside one, nested to any depth, the stream it was made
    from ends up behind its declared size. */
module Substreams {
  import opened Wrappers
  import opened Wire
  import opened WireFacts
  import opened InputStream

  /** Uses of a stream between opening and closing it. */
  datatype Use = Skips(count: nat) | Nested(uses: seq<Use>)

  /** What a stream loses: a nested substream counts with its prefix and declared size, however much of it
      was read. */
  function Taken(uses: seq<Use>, s: bytes): (r: Parse<()>)
    ensures r.Ok? ==> r.used <= |s|
    decreases uses
  {
    StringUsed(s);
    if uses == [] then Ok((), 0)
    else match uses[0]
      case Skips(n) => if n <= |s| then Taken(uses[1..], s[n..]).After(n) else Fail
      case Nested(inner) =>
        match DecString(s)
        case Fail => Fail
        case Ok(payload, n) => if Taken(inner, payload).Ok? then Taken(uses[1..], s[n..]).After(n) else Fail
  }

  /** Nothing past the declared end is read, and `bytes_left` falls by what `pos` rises. */
  method Run(s: IStream, uses: seq<Use>) returns (ok: bool)
    requires s.Valid()
    modifies s
    ensures s.Did(ok, Taken(uses, old(s.Rest())))
    decreases uses
  {
    hide DecString, Taken;
    ghost var start := s.Rest();
    ok := true;
    assert uses[0..] == uses;
    for i := 0 to |uses|
      invariant s.SameEnd() && s.pos >= old(s.pos)
      invariant Taken(uses, start) == Taken(uses[i..], s.Rest()).After(s.pos - old(s.pos))
    {
      ghost var rest, before := s.Rest(), s.pos;
      assert uses[i..] == [uses[i]] + uses[i + 1..];
      TakenFirst(uses[i], uses[i + 1..], rest);
      match uses[i] {
        case Skips(n) =>
          ok := s.Read(null, n);
          if !ok { return; }
        case Nested(inner) =>
          var sub;
          ok, sub := s.MakeSubstream();
          if !ok { return; }
          var status := Run(sub, inner);
          var closed := s.CloseSubstream(sub);
          ok := closed && status;
          if !ok { return; }
          assert s.Rest() == rest[DecString(rest).used..];
      }
      AfterTwice(Taken(uses[i + 1..], s.Rest()), s.pos - before, before - old(s.pos));
    }
    TakenNothing(s.Rest());
    assert uses[|uses|..] == [];
  }

  lemma TakenFirst(use: Use, rest: seq<Use>, s: bytes)
    ensures use.Skips? ==>
              Taken([use] + rest, s) == if use.count <= |s| then Taken(rest, s[use.count..]).After(use.count) else Fail
    ensures var p := DecString(s);
            && (p.Ok? ==> p.used <= |s|)
            && (use.Nested? ==>
                  Taken([use] + rest, s) ==
                  if p.Ok? && Taken(use.uses, p.value).Ok? then Taken(rest, s[p.used..]).After(p.used) else Fail)
  {
    hide DecString;
    StringUsed(s);
    assert ([use] + rest)[1..] == rest;
  }

  lemma TakenNothing(s: bytes)
    ensures Taken([], s) == Ok((), 0)
  {
  }

  lemma AfterTwice<T>(p: Parse<T>, a: nat, b: nat)
    ensures p.After(a).After(b) == p.After(a + b)
  {
  }
}
