/**
 * The two stateful things the downloader touches: the local filesystem,
 * as a map from path to file bytes, and the body of an HTTP response, read
 * piece by piece.
 */
module Storage {
  import opened Wrappers
  import opened Sequences

  type byte = bv8

  /** The local filesystem: the files that exist and their contents. */
  class FileSystem {
    var files: map<string, seq<byte>>

    constructor (initial: map<string, seq<byte>>)
      ensures files == initial
    {
      files := initial;
    }

    /** `os.path.exists(path)`. */
    method Exists(path: string) returns (b: bool)
      ensures b <==> path in files
    {
      b := path in files;
    }

    /** `open(path, 'wb')`: creates the file, or truncates it when it exists. */
    method Create(path: string)
      modifies this
      ensures files == old(files)[path := []]
    {
      files := files[path := []];
    }

    /** `f.write(data)` on a file opened for writing. */
    method Append(path: string, data: seq<byte>)
      requires path in files
      modifies this
      ensures files == old(files)[path := old(files)[path] + data]
    {
      files := files[path := files[path] + data];
    }
  }

  /**
   * A response body as it arrives: the segments the connection delivers,
   * in order, and whether the connection breaks (a read raises) once they
   * are used up instead of signalling the end of the body.
   */
  class ResponseStream {
    var segments: seq<seq<byte>>
    const failsAtEnd: bool

    /** The connection never delivers an empty segment before the end. */
    ghost predicate Valid()
      reads this
    {
      forall i :: 0 <= i < |segments| ==> |segments[i]| > 0
    }

    /** The bytes not yet read. */
    ghost function Remaining(): seq<byte>
      reads this
    {
      Flatten(segments)
    }

    constructor (segments: seq<seq<byte>>, failsAtEnd: bool)
      requires forall i :: 0 <= i < |segments| ==> |segments[i]| > 0
      ensures Valid() && this.segments == segments && this.failsAtEnd == failsAtEnd
    {
      this.segments := segments;
      this.failsAtEnd := failsAtEnd;
    }

    /**
     * `content.read(n)`: at most `n` bytes from what has arrived; an empty
     * result only at the end of the body; None when the connection broke.
     */
    method Read(n: nat) returns (chunk: Option<seq<byte>>)
      requires Valid() && n > 0
      modifies this
      ensures Valid()
      ensures chunk.None? <==> old(Remaining()) == [] && failsAtEnd
      ensures chunk.None? ==> unchanged(this)
      ensures chunk.Some? ==> |chunk.value| <= n && chunk.value + Remaining() == old(Remaining())
      ensures chunk.Some? ==> (chunk.value == [] <==> old(Remaining()) == [])
    {
      if segments == [] {
        return if failsAtEnd then None else Some([]);
      }
      var s := segments[0];
      if |s| <= n {
        segments := segments[1..];
        chunk := Some(s);
      } else {
        segments := [s[n..]] + segments[1..];
        assert s[..n] + s[n..] == s;
        chunk := Some(s[..n]);
      }
    }
  }
}
