/**
  The reading side of a connection: a socket that fragments the bytes as it likes, the read-ahead buffer
  of the socket stream, and the line reader with its fixed and growable buffers.
*/
module Streams {
  import opened Text

  const READ_BUFF_SIZE := 4096
  const MAX_LINE_LENGTH := 32768

  // The peer's bytes that recv has not returned yet.  A healthy connection delivers all of them, in
  // fragments of any size, and then reports the end; an unhealthy one may fail or end at any call.
  class Socket {
    const healthy: bool
    var pending: string
    ghost var received: string

    constructor (data: string, healthy: bool)
      ensures pending == data && received == "" && this.healthy == healthy
    {
      this.healthy := healthy;
      pending, received := data, "";
    }

    // wait_readable
    method WaitReadable() returns (ready: bool)
      ensures healthy ==> ready
    {
      ready := *;
      if healthy { ready := true; }
    }

    method Recv(size: nat) returns (n: int, data: string)
      modifies this
      ensures -1 <= n <= size && |data| == (if n < 0 then 0 else n)
      ensures old(pending) == data + pending && received == old(received) + data
      ensures healthy ==> n >= 0 && (n == 0 <==> size == 0 || old(pending) == "")
    {
      n := *;
      var most := if size < |pending| then size else |pending|;
      if healthy {
        if n < 1 || n > most { n := most; }
      } else if n < -1 || n > most {
        n := -1;
      }
      data := pending[..if n < 0 then 0 else n];
      pending := pending[|data|..];
      received := received + data;
    }
  }

  lemma TakeOne(input: string, i: nat, byte: char, rest: string)
    requires i < |input| && input[i..] == [byte] + rest
    ensures input[i] == byte && input[..i] + [byte] == input[..i + 1] && rest == input[i + 1..]
  {
    assert input[i..][0] == byte;
    assert input[i + 1..] == input[i..][1..];
  }

  class SocketStream {
    const sock: Socket
    const read_buff_: array<char>
    var read_buff_off_: nat
    var read_buff_content_size_: nat
    // The bytes handed out so far.
    ghost var handed: string

    ghost predicate Valid()
      reads this, sock, read_buff_
    {
      && read_buff_.Length == READ_BUFF_SIZE
      && read_buff_off_ <= read_buff_content_size_ <= READ_BUFF_SIZE
      && handed + Window() == sock.received
    }

    // The bytes read ahead of the caller.
    ghost function Window(): string
      requires read_buff_off_ <= read_buff_content_size_ <= read_buff_.Length
      reads this, read_buff_
    {
      read_buff_[read_buff_off_..read_buff_content_size_]
    }

    // Everything a caller can still get.
    ghost function Unread(): string
      requires Valid()
      reads this, sock, read_buff_
    {
      Window() + sock.pending
    }

    constructor (sock: Socket)
      requires sock.received == ""
      ensures Valid() && this.sock == sock && Unread() == sock.pending && handed == ""
      ensures fresh(read_buff_)
    {
      this.sock := sock;
      read_buff_ := new char[READ_BUFF_SIZE](_ => '\0');
      read_buff_off_, read_buff_content_size_ := 0, 0;
      handed := "";
    }

    // Refill the empty buffer with one recv.
    method Refill() returns (n: int)
      requires Valid() && Window() == ""
      modifies this`read_buff_off_, this`read_buff_content_size_, sock, read_buff_
      ensures read_buff_off_ == 0 && -1 <= n <= READ_BUFF_SIZE && read_buff_content_size_ == (if n < 0 then 0 else n)
      ensures old(sock.pending) == Window() + sock.pending && sock.received == old(sock.received) + Window()
      ensures sock.healthy ==> n >= 0 && (n == 0 <==> old(sock.pending) == "")
    {
      read_buff_off_ := 0;
      read_buff_content_size_ := 0;
      var got;
      n, got := sock.Recv(READ_BUFF_SIZE);
      forall i | 0 <= i < |got| { read_buff_[i] := got[i]; }
      assert read_buff_[..|got|] == got;
      read_buff_content_size_ := |got|;
    }

    // Move n bytes of the window to the caller.
    method HandOut(n: nat) returns (data: string)
      requires read_buff_.Length == READ_BUFF_SIZE && read_buff_off_ + n <= read_buff_content_size_ <= READ_BUFF_SIZE
      modifies this`read_buff_off_, this`handed
      ensures read_buff_off_ <= read_buff_content_size_
      ensures |data| == n && old(Window()) == data + Window() && handed == old(handed) + data
    {
      data := read_buff_[read_buff_off_..read_buff_off_ + n];
      assert Window() == data + read_buff_[read_buff_off_ + n..read_buff_content_size_];
      read_buff_off_ := read_buff_off_ + n;
      handed := handed + data;
    }

    // The part of read() that asks the socket.
    method ReadSocket(size: nat) returns (n: int, data: string)
      requires Valid() && Window() == ""
      modifies this, sock, read_buff_
      ensures Valid() && -1 <= n <= size && |data| == (if n < 0 then 0 else n)
      ensures old(sock.pending) == data + Unread() && handed == old(handed) + data
      ensures sock.healthy && size > 0 ==> n >= 0 && (n == 0 <==> old(sock.pending) == "")
    {
      ghost var was := handed;
      Nothing(was);
      if size < READ_BUFF_SIZE {
        n := Refill();
        if n <= size {
          data := HandOut(if n < 0 then 0 else n);
          assert Window() == "";
          read_buff_off_, read_buff_content_size_ := 0, 0;
        } else {
          n := size;
          data := HandOut(size);
        }
        Assoc(was, data, Window());
        Assoc(data, Window(), sock.pending);
      } else {
        read_buff_off_ := 0;
        read_buff_content_size_ := 0;
        n, data := sock.Recv(size);
        handed := handed + data;
        assert Window() == "";
        Nothing(sock.pending);
        Nothing(handed);
      }
    }

    // Hand out the next bytes: whatever the fragments, nothing is lost, repeated or reordered.
    method Read(size: nat) returns (n: int, data: string)
      requires Valid()
      modifies this, sock, read_buff_
      ensures Valid() && -1 <= n <= size && |data| == (if n < 0 then 0 else n)
      ensures old(Unread()) == data + Unread() && handed == old(handed) + data
      ensures sock.healthy && size > 0 ==> n >= 0 && (n == 0 <==> old(Unread()) == "")
    {
      if read_buff_off_ < read_buff_content_size_ {
        ghost var was := handed;
        var remaining := read_buff_content_size_ - read_buff_off_;
        n := if size <= remaining then size else remaining;
        data := HandOut(n);
        Assoc(was, data, Window());
        Assoc(data, Window(), sock.pending);
        return;
      }
      assert Window() == "";
      Nothing(sock.pending);
      var ready := sock.WaitReadable();
      if !ready {
        n, data := -1, "";
        Nothing(handed);
        Nothing(Unread());
        return;
      }
      n, data := ReadSocket(size);
    }
  }

  // ---- lines ----

  // The shortest prefix ending in CRLF, or everything when there is none.
  function LineOf(input: string): (line: string)
    ensures line <= input
    ensures input != "" ==> line != ""
  {
    var p := Find(input, CRLF);
    if p < |input| then input[..p + 2] else input
  }

  predicate HasLineEnd(input: string) {
    Find(input, CRLF) < |input|
  }

  // Does getline succeed on this input?  A line with its end may have the full length, one that the end
  // of the stream cuts off must stay below it.
  predicate LineFits(input: string) {
    && input != ""
    && if HasLineEnd(input) then |LineOf(input)| <= MAX_LINE_LENGTH else |input| < MAX_LINE_LENGTH
  }

  // The first j bytes end with a line end.
  predicate EndsLine(s: string, j: nat) {
    2 <= j <= |s| && s[j - 2] == '\r' && s[j - 1] == '\n'
  }

  lemma EndsIsStarts(s: string, i: nat)
    ensures StartsAt(s, i, CRLF) <==> EndsLine(s, i + 2)
  {
    if i + 2 <= |s| { assert s[i..i + 2] == [s[i], s[i + 1]]; }
  }

  // No line end within the first i bytes.
  ghost predicate Clean(input: string, i: nat) {
    forall j: nat :: j <= i ==> !EndsLine(input, j)
  }

  lemma CleanStart(input: string)
    ensures Clean(input, 0)
    ensures !LineFits("")
  {
  }

  lemma CleanStep(input: string, i: nat)
    requires i < |input| && Clean(input, i)
    ensures EndsLine(input, i + 1) <==> i > 0 && input[i - 1] == '\r' && input[i] == '\n'
    ensures !EndsLine(input, i + 1) ==> Clean(input, i + 1)
  {
  }

  lemma LineEndAt(input: string, k: nat)
    requires k > 0 && EndsLine(input, k) && Clean(input, k - 1)
    ensures LineOf(input) == input[..k] && HasLineEnd(input)
    ensures k <= MAX_LINE_LENGTH ==> LineFits(input)
  {
    EndsIsStarts(input, k - 2);
    forall j: nat | j < k - 2 ensures !StartsAt(input, j, CRLF) { EndsIsStarts(input, j); }
    FindIs(input, CRLF, k - 2);
  }

  lemma NoLineEnd(input: string)
    requires Clean(input, |input|)
    ensures LineOf(input) == input && !HasLineEnd(input)
    ensures 0 < |input| < MAX_LINE_LENGTH ==> LineFits(input)
  {
    EndsIsStarts(input, Find(input, CRLF));
  }

  // Beyond the length limit without having seen a line end.
  lemma LineTooLong(input: string)
    requires MAX_LINE_LENGTH <= |input| && Clean(input, MAX_LINE_LENGTH)
    ensures !LineFits(input)
  {
    EndsIsStarts(input, Find(input, CRLF));
  }

  class StreamLineReader {
    const strm: SocketStream
    const fixed_buffer_: array<char>
    var fixed_buffer_used_size_: nat
    var growable_buffer_: string

    ghost predicate Valid()
      reads this, fixed_buffer_
    {
      && fixed_buffer_.Length > 1 && fixed_buffer_ != strm.read_buff_
      && fixed_buffer_used_size_ < fixed_buffer_.Length
      && (growable_buffer_ != "" ==>
            && fixed_buffer_used_size_ == fixed_buffer_.Length - 1
            && |growable_buffer_| > fixed_buffer_used_size_)
    }

    // The characters from ptr() on, size() of them.
    function Line(): string
      requires Valid()
      reads this, fixed_buffer_
    {
      if growable_buffer_ == "" then fixed_buffer_[..fixed_buffer_used_size_] else growable_buffer_
    }

    constructor (strm: SocketStream, fixed_buffer: array<char>)
      requires fixed_buffer.Length > 1 && fixed_buffer != strm.read_buff_
      ensures Valid() && this.strm == strm && this.fixed_buffer_ == fixed_buffer
    {
      this.strm := strm;
      fixed_buffer_ := fixed_buffer;
      fixed_buffer_used_size_ := 0;
      growable_buffer_ := "";
    }

    // Into the fixed buffer as long as a terminator still fits, then into the growable one.
    method Append(c: char)
      requires Valid()
      modifies this, fixed_buffer_
      ensures Valid() && Line() == old(Line()) + [c]
    {
      if fixed_buffer_used_size_ < fixed_buffer_.Length - 1 {
        ghost var before := fixed_buffer_[..fixed_buffer_used_size_];
        fixed_buffer_[fixed_buffer_used_size_] := c;
        fixed_buffer_used_size_ := fixed_buffer_used_size_ + 1;
        fixed_buffer_[fixed_buffer_used_size_] := '\0';
        assert fixed_buffer_[..fixed_buffer_used_size_] == before + [c];
      } else {
        if growable_buffer_ == "" {
          growable_buffer_ := fixed_buffer_[..fixed_buffer_used_size_];
        }
        growable_buffer_ := growable_buffer_ + [c];
      }
    }

    // One byte from the stream into the buffers.
    method Take() returns (n: int, c: char)
      requires Valid() && strm.Valid()
      modifies this, fixed_buffer_, strm, strm.sock, strm.read_buff_
      ensures Valid() && strm.Valid() && -1 <= n <= 1
      ensures n == 1 ==> Line() == old(Line()) + [c] && old(strm.Unread()) == [c] + strm.Unread()
      ensures n != 1 ==> Line() == old(Line()) && old(strm.Unread()) == strm.Unread()
      ensures strm.sock.healthy ==> n >= 0 && (n == 0 <==> old(strm.Unread()) == "")
    {
      var bytes;
      n, bytes := strm.Read(1);
      if n == 1 {
        c := bytes[0];
        assert bytes == [c];
        ghost var unread := strm.Unread();
        Append(c);
        assert strm.Unread() == unread;
      } else {
        c := '\0';
        assert bytes == "";
      }
    }

    // On a healthy connection, the next line exactly when it fits; on any connection, what was taken
    // from the stream is what the buffers hold.
    method Getline() returns (ok: bool)
      requires Valid() && strm.Valid()
      modifies this, fixed_buffer_, strm, strm.sock, strm.read_buff_
      ensures Valid() && strm.Valid()
      ensures old(strm.Unread()) == Line() + strm.Unread()
      ensures ok ==> Line() != ""
      ensures strm.sock.healthy ==> (ok <==> LineFits(old(strm.Unread())))
      ensures strm.sock.healthy && ok ==> Line() == LineOf(old(strm.Unread()))
      ensures strm.sock.healthy && !ok ==> |Line()| == if old(strm.Unread()) == "" then 0 else MAX_LINE_LENGTH
    {
      hide LineOf;
      hide LineFits;
      hide Clean;
      hide EndsLine;
      fixed_buffer_used_size_ := 0;
      growable_buffer_ := "";
      ghost var input := strm.Unread();
      var prev := '\0';
      var i := 0;
      assert Line() == "";
      CleanStart(input);
      while true
        invariant Valid() && strm.Valid() && 0 <= i <= MAX_LINE_LENGTH
        invariant i <= |input| && Line() == input[..i] && strm.Unread() == input[i..]
        invariant i > 0 ==> prev == input[i - 1]
        invariant i == 0 ==> prev == '\0'
        invariant Clean(input, i)
        decreases MAX_LINE_LENGTH - i
      {
        Halves(input, i);
        if |Line()| >= MAX_LINE_LENGTH {
          LineTooLong(input);
          return false;
        }
        var n, byte := Take();
        if n < 0 { return false; }
        if n == 0 {
          if strm.sock.healthy { assert i == |input| && input[..i] == input; }
          if i == 0 { return false; }
          if strm.sock.healthy { NoLineEnd(input); }
          return true;
        }
        TakeOne(input, i, byte, strm.Unread());
        CleanStep(input, i);
        i := i + 1;
        Halves(input, i);
        if prev == '\r' && byte == '\n' {
          LineEndAt(input, i);
          return true;
        }
        prev := byte;
      }
    }
  }
}
