/** configuration.c: the path that fcitx_configuration_foreach builds for each sub-item, in one growing buffer. */
module PathBuffer {
  import opened ConfigTree

  /** When the terminator can be written: there is a buffer, or one is about to be made. */
  predicate Allowed(path: string, key: string, pathBufLen: nat) {
    path != "" || key != "" || pathBufLen > 0
  }

  /** The buffer's length once it has held the path of `key`. */
  function LenWith(path: string, key: string, pathBufLen: nat): nat {
    if |Extended(path, key)| > pathBufLen then |Extended(path, key)| else pathBufLen
  }

  /** A pass over `items` writes to no missing buffer. */
  predicate PassAllowed(items: seq<Item>, path: string, pathBufLen: nat) {
    items != [] ==>
      && Allowed(path, items[0].name, pathBufLen)
      && PassAllowed(items[1..], path, LenWith(path, items[0].name, pathBufLen))
  }

  /** Only the first sub-item matters: behind it there is a buffer. */
  lemma {:induction false} PassAllowedExactly(items: seq<Item>, path: string, pathBufLen: nat)
    ensures PassAllowed(items, path, pathBufLen) <==> items == [] || Allowed(path, items[0].name, pathBufLen)
  {
    if items == [] {
    } else {
      PassAllowedExactly(items[1..], path, LenWith(path, items[0].name, pathBufLen));
    }
  }

  class PathBuffer {
    const path: string
    var pathBuf: array<char>
    var pathBufLen: nat

    /** Once there is a buffer it begins with the path and a slash. */
    ghost predicate Valid()
      reads this, pathBuf
    {
      && (pathBufLen > 0 ==> pathBuf.Length == pathBufLen + 1 && Prefix() <= pathBuf[..])
      && (pathBufLen == 0 ==> pathBuf.Length == 0)
    }

    ghost function Prefix(): string {
      if path == "" then "" else path + "/"
    }

    constructor (path: string)
      ensures Valid() && this.path == path && pathBufLen == 0 && fresh(pathBuf)
    {
      this.path := path;
      pathBuf := new char[0];
      pathBufLen := 0;
    }

    /**
      _fcitx_configuration_subitems_foreach up to the callback: the buffer holds the path of the
      sub-item and its terminator. An empty key without a path needs the buffer to be there already.
     */
    method SetKey(key: string) returns (newPathLen: nat)
      requires Valid() && Allowed(path, key, pathBufLen)
      modifies this`pathBuf, this`pathBufLen, pathBuf
      ensures Valid() && (pathBuf == old(pathBuf) || fresh(pathBuf))
      ensures pathBufLen == LenWith(path, key, old(pathBufLen))
      ensures newPathLen < pathBuf.Length
      ensures pathBuf[..newPathLen] == Extended(path, key) && pathBuf[newPathLen] == '\0'
    {
      var at := |path| + if path != "" then 1 else 0;
      newPathLen := at + |key|;
      if newPathLen > pathBufLen {
        Grow(newPathLen);
      }
      forall i | 0 <= i < |key| {
        pathBuf[at + i] := key[i];
      }
      pathBuf[newPathLen] := '\0';
      assert pathBuf[..at] == Prefix();
      assert pathBuf[..newPathLen] == Prefix() + key;
      assert Prefix() <= pathBuf[..];
    }

    /** The reallocation, which copies the path into the first buffer. */
    method Grow(newPathLen: nat)
      requires Valid() && newPathLen > pathBufLen && |Prefix()| <= newPathLen
      modifies this`pathBuf, this`pathBufLen
      ensures Valid() && pathBufLen == newPathLen && fresh(pathBuf)
    {
      var b := new char[newPathLen + 1];
      forall i | 0 <= i < pathBuf.Length {
        b[i] := pathBuf[i];
      }
      if pathBufLen == 0 && path != "" {
        forall i | 0 <= i < |path| {
          b[i] := path[i];
        }
        b[|path|] := '/';
      }
      assert b[..|Prefix()|] == Prefix();
      pathBuf, pathBufLen := b, newPathLen;
    }
  }
}
