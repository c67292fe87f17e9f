/**
  The file system as the documentation core sees it: a map from a full path
  to the text of the file (File.Exists, File.ReadAllText, File.WriteAllText).
  No file has the empty path, so a null or empty path never exists.
*/
module Files {
  type FileSystem = fs: map<string, string> | "" !in fs witness map[]
}
