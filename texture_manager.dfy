/** A cache of loaded textures, keyed by their path under a root
    directory. Loading a texture (reading the file and creating the OpenGL
    object) is an oracle `load`: `load(path, n)` is the handle the `n`-th
    load of the manager gets for `path`. OpenGL hands out a new name on
    every load, so two loads of one path need not give the same handle. */
module Textures {

  /** Both separators a root directory may end in. */
  predicate IsSeparator(c: char)
  {
    c == '/' || c == '\\'
  }

  /** The root directory as stored: `./` for an empty one, otherwise the
      given one, with `/` added unless it already ends in a separator. */
  function NormalizedRoot(dir: string): (r: string)
    ensures |r| > 0 && IsSeparator(r[|r| - 1])
    ensures dir == [] ==> r == "./"
    ensures dir != [] && IsSeparator(dir[|dir| - 1]) ==> r == dir
    ensures dir != [] && !IsSeparator(dir[|dir| - 1]) ==> r == dir + "/"
  {
    if dir == [] then "./"
    else if IsSeparator(dir[|dir| - 1]) then dir
    else dir + "/"
  }

  /** A stored root is kept as it is. */
  lemma NormalizedRootIdempotent(dir: string)
    ensures NormalizedRoot(NormalizedRoot(dir)) == NormalizedRoot(dir)
  {
  }

  /** Keys are root-prefixed paths; the ghost log `loaded` lists the loads
      in order, once per key, and every cached handle is the one its load
      got. Each load adds one key, so the cache size counts the loads. */
  class TextureManager {
    const rootDir: string
    var textures: map<string, nat>
    ghost var loaded: seq<string>

    ghost predicate Valid(load: (string, nat) -> nat)
      reads this
    {
      (forall n :: 0 <= n < |loaded| ==> loaded[n] in textures && textures[loaded[n]] == load(loaded[n], n)) &&
      (forall path :: path in textures <==> path in loaded) && |textures| == |loaded| &&
      (forall a, b :: 0 <= a < b < |loaded| ==> loaded[a] != loaded[b])
    }

    constructor (dir: string)
      ensures rootDir == NormalizedRoot(dir)
      ensures textures == map[] && loaded == []
    {
      var root: string;
      if dir == [] {
        root := "./";
      } else {
        root := dir;
        var last := root[|root| - 1];
        if last != '/' && last != '\\' {
          root := root + "/";
        }
      }
      rootDir := root;
      textures := map[];
      loaded := [];
    }

    /** The handle for `fname`: the cached one if its path was loaded
        before, otherwise a fresh load, which is cached even when it is 0.
        Every other entry stays as it was. */
    method GetTexture(fname: string, load: (string, nat) -> nat) returns (tex: nat)
      requires Valid(load)
      modifies this
      ensures Valid(load)
      ensures rootDir + fname in textures && tex == textures[rootDir + fname]
      ensures rootDir + fname in old(textures) ==>
        tex == old(textures)[rootDir + fname] && textures == old(textures) && loaded == old(loaded)
      ensures rootDir + fname !in old(textures) ==>
        tex == load(rootDir + fname, |old(loaded)|) &&
        textures == old(textures)[rootDir + fname := tex] && loaded == old(loaded) + [rootDir + fname]
    {
      var path := rootDir + fname;
      if path in textures {
        return textures[path];
      } else {
        tex := load(path, |textures|);
        textures := textures[path := tex];
        loaded := loaded + [path];
      }
    }
  }

  /** Asking twice for the same name gives the same handle, although a
      second load could give another one: the file is loaded at most once,
      by the first call if it was not cached, and the handle is the cached
      one. */
  method GetTextureTwice(m: TextureManager, fname: string, load: (string, nat) -> nat)
    returns (first: nat, second: nat)
    requires m.Valid(load)
    modifies m
    ensures m.Valid(load) && first == second
    ensures m.rootDir + fname in m.textures && second == m.textures[m.rootDir + fname]
    ensures m.loaded == old(m.loaded) || m.loaded == old(m.loaded) + [m.rootDir + fname]
  {
    first := m.GetTexture(fname, load);
    second := m.GetTexture(fname, load);
  }
}
