/**
 * The directory of the running executable and the two paths built from it in the
 * `Renderer` constructor (renderer.cpp:41-48): `wcsrchr` finds the last `\`, the
 * string is cut just after it, and the shader and model file names are appended.
 */
module ModulePath {

  const Backslash: char := '\\'
  const ShaderFile: string := "shaders.hlsl"
  const ModelFile: string := "Cube\\Cube.gltf"

  /** `wcsrchr(s, c)`: the index of the last occurrence of `c` in `s`. */
  function LastIndexOf(s: string, c: char): (i: nat)
    requires c in s
    ensures i < |s| && s[i] == c
    ensures forall k :: i < k < |s| ==> s[k] != c
  {
    if s[|s| - 1] == c then |s| - 1
    else
      assert c in s[..|s| - 1] by {
        var j :| 0 <= j < |s| && s[j] == c;
        assert s[..|s| - 1][j] == c;
      }
      LastIndexOf(s[..|s| - 1], c)
  }

  /** `m_moduleDir`: the module path up to and including its last backslash. A path
      without one would make the source write through a null pointer. */
  function ModuleDir(path: string): (dir: string)
    requires Backslash in path
    ensures 0 < |dir| <= |path| && dir == path[..|dir|]
    ensures dir[|dir| - 1] == Backslash
    ensures forall k :: |dir| <= k < |path| ==> path[k] != Backslash
  {
    path[..LastIndexOf(path, Backslash) + 1]
  }

  /** A prefix ending in the last backslash of `path` is its module directory. */
  lemma ModuleDirUnique(path: string, dir: string)
    requires 0 < |dir| <= |path| && dir == path[..|dir|] && dir[|dir| - 1] == Backslash
    requires forall k :: |dir| <= k < |path| ==> path[k] != Backslash
    ensures Backslash in path
    ensures ModuleDir(path) == dir
  {
    assert path[|dir| - 1] == Backslash;
    var d := ModuleDir(path);
    assert path[|d| - 1] == d[|d| - 1];
    assert |d| == |dir|;
  }

  /** `m_shaderPath`: the module directory followed by the shader file name. */
  function ShaderPath(path: string): (p: string)
    requires Backslash in path
    ensures |p| == |ModuleDir(path)| + |ShaderFile|
    ensures p[..|ModuleDir(path)|] == ModuleDir(path) && p[|ModuleDir(path)|..] == ShaderFile
  {
    ModuleDir(path) + ShaderFile
  }

  /** `m_modelPath`: the module directory followed by the model file name. */
  function ModelPath(path: string): (p: string)
    requires Backslash in path
    ensures |p| == |ModuleDir(path)| + |ModelFile|
    ensures p[..|ModuleDir(path)|] == ModuleDir(path) && p[|ModuleDir(path)|..] == ModelFile
  {
    ModuleDir(path) + ModelFile
  }

  /** The shader file sits in the module directory itself. */
  lemma ShaderBesideModule(path: string)
    requires Backslash in path
    ensures Backslash in ShaderPath(path)
    ensures ModuleDir(ShaderPath(path)) == ModuleDir(path)
    ensures ShaderPath(path)[|ModuleDir(path)|..] == ShaderFile
  {
    var dir, full := ModuleDir(path), ShaderPath(path);
    forall k | |dir| <= k < |full|
      ensures full[k] != Backslash
    {
      assert full[k] == ShaderFile[k - |dir|];
    }
    ModuleDirUnique(full, dir);
  }

  /** The model file sits in the `Cube` folder of the module directory. */
  lemma ModelInCubeFolder(path: string)
    requires Backslash in path
    ensures Backslash in ModelPath(path)
    ensures ModuleDir(ModelPath(path)) == ModuleDir(path) + "Cube\\"
    ensures ModelPath(path)[|ModuleDir(path)|..] == ModelFile
  {
    var dir, full := ModuleDir(path), ModelPath(path);
    var folder := dir + "Cube\\";
    assert full == folder + "Cube.gltf";
    forall k | |folder| <= k < |full|
      ensures full[k] != Backslash
    {
      assert full[k] == "Cube.gltf"[k - |folder|];
    }
    ModuleDirUnique(full, folder);
  }
}
